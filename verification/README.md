# StyleBlit orchestration, modelled in Dafny

StyleBlit stylizes a rendered 3D object in real time. A small source image
comes with a per-pixel guiding field (normals) and a style image. A matching
pass builds a nearest-neighbour field (NNF) over the target, and a blending
pass averages NNF-indexed style samples within a blend radius. Both passes are
GLSL fragment shaders. This project models the C++ that drives them, which has
two parts.

- **`styleblit()`'s orchestration** (`styleblit/styleblit.cpp`). Its static
  variables act as a memoising cache. Each call may build the main program,
  the NNF texture and the jitter texture, which happens only on the first
  call. It rebuilds the blend program, specialised by a
  `#define BLEND_RADIUS <r>` prefix, when none exists or the radius changed.
  It re-specifies the NNF texture when the target size changed. It redraws the
  256 x 256 x 4 jitter table when asked, and always on the first call. It then
  issues the matching pass, followed by the blending pass. The model is the
  pure transition `Styleblit.Step(state, call, blendHandle, draws)`, which
  returns the new state and a trace of opaque GL events.
- **The demo application's controls and per-frame decisions** (`main.cpp`).
  The key callback steps the threshold, blend radius and jitter mode within
  fixed bounds. Each frame decides whether the jitter table is redrawn, follows
  a window resize, and calls `styleblit()`. Picking a style sets the source
  resolution. These are modelled in `Controls.KeyCallback` and
  `MainLoop.Frame`.

The driver and the C library are parameters of the model:

- `blendHandle` is the handle program creation returns. Zero would mean
  creation failed, and then the next call rebuilds again, as in the C code.
- `draws` holds the `rand()` values one table regeneration consumes.
- Time is an integer count of milliseconds.

Modules:

| file | module | models |
|---|---|---|
| wrappers.dfy | Wrappers | `Option` |
| decimal.dfy | Decimal | `%d` rendering of an int and its inverse parser |
| jitter_table.dfy | JitterTable | table size, `rand()`-to-byte conversion, regeneration loop |
| styleblit.dfy | Styleblit | `styleblit()` state, one call, runs of calls |
| controls.dfy | Controls | `keyCallback` and the reachable parameter range |
| main_loop.dfy | MainLoop | jitter cadence, resize detection, source size, one frame |

## Model

| member | source | states |
|---|---|---|
| Decimal.IntToDecimalRoundTrip | styleblit/styleblit.cpp:173 | parsing the `%d` text of any int gives the int back |
| Decimal.ParseIntRoundTrip | styleblit/styleblit.cpp:173 | every string the parser accepts is exactly the `%d` text of its value: there are no leading zeros and no `-0` |
| Decimal.Int32DecimalLength | styleblit/styleblit.cpp:172-173 | the `%d` text of any 32-bit int is at most 11 characters long |
| Decimal.IntToDecimal | styleblit/styleblit.cpp:173 | the `%d` text of an int is never empty, starts with `-` iff the int is negative, has no leading zero after the sign, and is never `-0`; the digits of a natural number are `0` only for 0 |
| Styleblit.BlendPrefix | styleblit/styleblit.cpp:172-173 | the prefix is `#define BLEND_RADIUS `, then the radius's decimal, then a newline |
| Styleblit.BlendPrefixParses | styleblit/styleblit.cpp:172-175 | the radius can be read back from the prefix built for it |
| Styleblit.BlendPrefixUnique | styleblit/styleblit.cpp:172-175 | every parsable prefix is exactly the one built for the radius it parses to, so distinct radii give distinct programs |
| Styleblit.BlendPrefixFitsBuffer | styleblit/styleblit.cpp:172-173 | for every 32-bit radius, the prefix plus its NUL fits the 256-byte buffer |
| JitterTable.ToByte | styleblit/styleblit.cpp:192 | a `rand()` value in [0, RAND_MAX] maps to the byte floor(r*255/RAND_MAX), in [0, 255] |
| JitterTable.ToByteMonotone | styleblit/styleblit.cpp:192 | the conversion is monotone and maps 0 to 0 and RAND_MAX to 255 |
| JitterTable.Regenerate | styleblit/styleblit.cpp:188-192 | a regenerated table has exactly 256*256*4 entries, each a byte, and entry i comes from the i-th draw |
| JitterTable.FillTable | styleblit/styleblit.cpp:190-192 | the element-by-element fill loop writes every entry from its draw and yields the regenerated table |
| Styleblit.Step | styleblit/styleblit.cpp:136-196 | after a call the state is initialized and records the call's radius and target size. The program handle is replaced by the handle program creation returns exactly when a rebuild is due, and is kept otherwise. The NNF takes the call's size on the first call or on a size change and is otherwise kept. The table is redrawn on request or on the first call and is otherwise unchanged. The trace ends with the two passes |
| Styleblit.StepCounts | styleblit/styleblit.cpp:160-231 | for every event kind, a call emits: the three creations (main program, NNF, jitter texture) on the first call and never again; one deletion of the old blend program iff a rebuild is due and a program exists; one blend build iff no program exists or the radius changed; one NNF reallocation iff the target size differs from the recorded one; one table upload iff jitter was asked for or this is the first call; exactly one matching pass and one blending pass |
| Styleblit.StepTrace | styleblit/styleblit.cpp:160-231 | the counts of StepCounts spelled out for all seven event kinds of one call |
| Styleblit.StepOrder | styleblit/styleblit.cpp:170-231 | every build, reallocation and upload comes before the passes. The NNF is created and re-specified at the call's target size. Every build uses the prefix for the call's radius. Every upload carries the table the call leaves. The matching pass comes right before the blending pass, which is last |
| Styleblit.InitialInv | styleblit/styleblit.cpp:147-158 | the static initialisers satisfy the state invariant, with no program and not yet initialized |
| Styleblit.StepPreservesInv | styleblit/styleblit.cpp:160-196 | every call keeps the invariant. Afterwards the NNF texture has exactly the call's target size and the table has its fixed size, whatever the target |
| Styleblit.StepUploads | styleblit/styleblit.cpp:160-196 | a call uploads a jitter table iff it was asked to redraw one or it is the first call |
| Styleblit.StepCached | styleblit/styleblit.cpp:160-231 | a call that finds the program, radius and size already in place emits only the optional upload of the freshly drawn table and the two passes |
| Styleblit.FirstCall | styleblit/styleblit.cpp:160-177 | the first call creates the main program, the NNF at the target size and the jitter texture, then builds the blend program. It redraws the table even when jitter is off. It also re-specifies the NNF iff the target is not 0 x 0 |
| Styleblit.RepeatedCallIsCached | styleblit/styleblit.cpp:170-186 | a second call with the same size and radius rebuilds and reallocates nothing. Its trace is only the optional upload and the two passes |
| Styleblit.RadiusChangeAndBack | styleblit/styleblit.cpp:170-177 | r to r' to r deletes and rebuilds at each change. It ends with the program built from the prefix for r, which parses back to r |
| Styleblit.TableIndependentOfTarget | styleblit/styleblit.cpp:188-196 | two calls that differ only in target size leave the same jitter table |
| Styleblit.RunPreservesInv | styleblit/styleblit.cpp:147-196 | over any run of calls the invariant holds, the NNF has the last call's size, and a real program handle stays real |
| Styleblit.RunCounts | styleblit/styleblit.cpp:160-196 | over a run from an initialized state holding a program, with real handles, nothing is created; there is one deletion and one build per radius change, one reallocation per size change, one upload per jitter request, and one matching pass and one blending pass per call |
| Styleblit.RunFromInitial | styleblit/styleblit.cpp:147-196 | from the static initialisers, the three creations happen once; there is one build plus one per later radius change, one deletion per later radius change, one reallocation per size change counting from 0 x 0, and one upload on the first call plus one per later jitter request |
| Styleblit.NoProgramLeak | styleblit/styleblit.cpp:170-177 | from the static initialisers with real handles, a run deletes exactly one blend program fewer than it builds, so only the current program stays alive |
| Controls.KeyCallback | main.cpp:344-352 | ESCAPE on press or repeat sets `done` and nothing clears it. Unhandled keys and releases change nothing. J changes only the jitter mode, UP/DOWN only the threshold, and RIGHT/LEFT only the radius |
| Controls.InitialValid | main.cpp:34-36 | the initial threshold 24, jitter 12 and radius 1 are within bounds |
| Controls.KeyCallbackPreservesValid | main.cpp:344-352 | every key event keeps the threshold a multiple of 4 in [0, 64], the radius in [0, 8] and the jitter mode in {0, 12} |
| Controls.JitterToggle | main.cpp:346 | J toggles the jitter mode between 12 and 0 on a press only, not on repeat or release |
| Controls.JitterToggleTwice | main.cpp:346 | two J presses restore the parameters iff the jitter mode was 0 or 12 |
| Controls.ThresholdSteps | main.cpp:347-348 | UP adds 4 while below 64 and DOWN undoes it. DOWN subtracts 4 while at least 4 and UP undoes it. At 64 and at 0 the respective key does nothing |
| Controls.RadiusSteps | main.cpp:349-350 | RIGHT/LEFT step the radius by 1 within [0, 8], each undoing the other, and do nothing at the bounds |
| Controls.ApplyKeysValid | main.cpp:344-352 | any sequence of key events keeps the parameters within bounds and never clears `done` |
| Controls.ReachableValid | main.cpp:344-352 | every parameter state reachable from the initialisers is within bounds |
| MainLoop.DecideJitter | main.cpp:598-611 | a frame jitters iff the mode is -1, or the mode is 12 and more than 1000/12 ms have passed since the last jittered frame. The recorded time moves to now exactly when a mode-12 frame jitters |
| MainLoop.CadenceInMilliseconds | main.cpp:606 | in whole milliseconds, the cadence condition holds exactly from 84 ms on |
| MainLoop.RedrawsAreSpaced | main.cpp:602-611 | in mode 12, jittered frames are at least 84 ms apart and after the recorded start, so n redraws span at least 84*n ms |
| MainLoop.DetectResize | main.cpp:615-626 | afterwards the target equals the framebuffer size, and the buffers are recreated iff the sizes differed |
| MainLoop.ResizeIdempotent | main.cpp:615-619 | the first frame (target -1 x -1) always allocates, and repeating the detection at the same size allocates nothing |
| MainLoop.CDiv | main.cpp:693 | C's integer division truncates towards zero on either sign |
| MainLoop.SourceSizeFor | main.cpp:693 | the size is the window height divided by 4 for styles 0, 1, 2, 5 and 9 and by 3 for the others, truncated towards zero: for a non-negative height the largest n with n*d <= height, for a negative one the smallest n with height <= n*d |
| MainLoop.SourceSizeBounds | main.cpp:693 | for a non-negative height the size is the integer quotient by 4 or 3, and exactly 5 of the 12 styles use 4. A third-height size is never smaller, and the start-up size equals style 0's |
| MainLoop.Frame | main.cpp:598-697 | the time of the last redraw becomes the one the jitter decision records; the source size becomes that of the last icon picked, or stays when none was; the jitter mode is untouched |
| MainLoop.FrameArguments | main.cpp:668-677 | the frame's styleblit() call uses the controls' blend radius and the handle program creation returns, and is asked to redraw the table exactly when this frame's jitter decision says so: the stylizer then records that radius, keeps the new handle exactly when a rebuild was due and the old one otherwise, and its table is freshly drawn iff the decision fired or it is the first call |
| MainLoop.FrameUploads | main.cpp:598-677 | a frame uploads a jitter table iff its jitter decision fired or the stylizer was not yet set up |
| MainLoop.FrameFollowsWindow | main.cpp:590-697 | after a frame, the target and the NNF both have the window's size. The target was recreated iff the window size changed. Only the quit flag of the controls changes. The source size is that of the last pick, or unchanged without one, and the redraw time follows the jitter decision |
| MainLoop.FramePasses | main.cpp:668-697 | the frame's styleblit() renders the window-sized target from the square source chosen before this frame's picks, using the current threshold. It ends with the matching pass then the blending pass, followed only by one reload per picked icon, in icon order, at that icon's size |
| MainLoop.CadenceFrame | main.cpp:598-677 | in mode 12 with the stylizer set up, a frame uploads a table iff the cadence fires, and leaves the mode, the set-up stylizer and the cadence's new redraw time for the next frame |
| MainLoop.FrameJitterCadence | main.cpp:598-677 | over any run of frames in mode 12 once the stylizer is set up, the frames that upload a jitter table are exactly the cadence's redraw times, so they are at least 84 ms apart and after the recorded time |
| MainLoop.FirstFrame | main.cpp:615-677 | the start-up state satisfies the stylizer's invariant and has style 0's source size. The first frame allocates the target, then creates the main program, the NNF at the window size and the jitter texture, and draws a table even though the cadence has not elapsed |
| MainLoop.SteadyFrame | main.cpp:615-677 | a frame at an unchanged size and radius recreates nothing: no target buffers, no NNF, no blend program |
| MainLoop.FrameSettles | main.cpp:615-697 | after any frame whose program creation succeeded, the loop is settled for that window size: target and NNF at that size, a real blend program for the controls' radius, so the next frame at the same size recreates nothing |
| MainLoop.ReachableModes | main.cpp:598-611 | with reachable controls the radius passed on is in [0, 8] and the every-frame mode -1 never applies |

## Left out

- The matching and blending shaders, `styleblit_main.frag` and
  `styleblit_blend.frag`, are not part of this model. Nothing is stated about
  NNF contents or output colours.
- GL state and plumbing are not modelled: uniforms, texture units, depth-test
  toggles, `glViewport`, the full-screen triangle buffers, the NNF framebuffer
  object that `createFBO` makes on the first call, and
  `glCheckFramebufferStatus`'s exit on an incomplete FBO. A zero-width or
  zero-height NNF gives an incomplete FBO, so in the program a first call with a
  zero target dimension ends the process; `Styleblit.FirstCall`'s 0 x 0 case
  exists only in the model. The trace events are
  the creations of the main program, the NNF texture and the jitter texture,
  the deletion and the build of the blend program, the NNF reallocation, the
  table upload and the two draws.
- Shader loading, compilation and linking (`stringFromFile`, `compileShader`,
  `createProgram`) are file and driver I/O. Their result is the caller-supplied
  `blendHandle`.
- JitterTable.ToByte: `(float(rand())/float(RAND_MAX))*255.0f` is single-precision
  float arithmetic. The model uses the exact rational floor, which can differ
  by one on some draws. RAND_MAX is taken as glibc's 2147483647.
- MainLoop.DecideJitter: time is integer milliseconds, not `glfwGetTime()`'s
  float. `elapsed*12 > 1000` replaces the float comparison with 1000/12.
- Controls.KeyCallback: the threshold is an int, not a float. This is exact
  for every value the keys can reach.
- MainLoop.FrameJitterCadence: stated for runs that start once the stylizer is
  set up, because the very first call uploads a table whatever the cadence says;
  that frame is covered by `MainLoop.FirstFrame` and `MainLoop.FrameUploads`.
- MainLoop.Frame: which icons a click hits is an input of the frame, the list
  of picked icons in loop order. The icon geometry and hit-testing are not
  modelled. For windows narrower than 120 pixels the icon spacing is 0 and
  neighbouring icons share a border column, so one click can hit two icons;
  the model allows any increasing list of picks for this reason.
- OBJ loading and normal generation, camera navigation (`handleCamera`,
  `clamp`, `lerp`), icon drawing and hit-testing, texture loading and resizing
  are application glue and are not modelled. The GLFW/Emscripten loop and the
  mouse-button bookkeeping are not modelled either.
