/**
 The interactive parameter controller of the demo application: the GLFW key
 callback that steps the matching threshold, the blend radius and the jitter
 mode within fixed bounds, and sets the quit flag.
 */
module Controls {

  // GLFW key codes and actions.
  const KeyJ := 74
  const KeyEscape := 256
  const KeyRight := 262
  const KeyLeft := 263
  const KeyDown := 264
  const KeyUp := 265

  const Release := 0
  const Press := 1
  const Repeat := 2

  /** The adjustable globals of the application. The threshold is a float in
      the application; every value it can reach is a small multiple of 4,
      so an int represents it exactly. */
  datatype Params = Params(threshold: int, jitter: int, blendRadius: int, done: bool)

  /** Their initialisers. */
  const InitialParams := Params(24, 12, 1, false)

  /** Threshold, radius and quit respond to a press and to auto-repeat. */
  predicate PressOrRepeat(action: int) {
    action == Press || action == Repeat
  }

  /** The keys the callback reacts to. */
  predicate IsHandledKey(key: int) {
    key == KeyJ || key == KeyUp || key == KeyDown || key == KeyRight || key == KeyLeft || key == KeyEscape
  }

  /** `keyCallback`: one independent test per key, in source order. */
  function KeyCallback(p: Params, key: int, action: int): (q: Params)
    ensures q.done <==> p.done || (key == KeyEscape && PressOrRepeat(action))
    ensures !IsHandledKey(key) || action == Release ==> q == p
    ensures key != KeyJ ==> q.jitter == p.jitter
    ensures key != KeyUp && key != KeyDown ==> q.threshold == p.threshold
    ensures key != KeyRight && key != KeyLeft ==> q.blendRadius == p.blendRadius
  {
    var p1 := if key == KeyJ && action == Press
              then p.(jitter := if p.jitter == 0 then 12 else 0) else p;
    var p2 := if key == KeyUp && PressOrRepeat(action) && p1.threshold < 64
              then p1.(threshold := p1.threshold + 4) else p1;
    var p3 := if key == KeyDown && PressOrRepeat(action) && p2.threshold >= 4
              then p2.(threshold := p2.threshold - 4) else p2;
    var p4 := if key == KeyRight && PressOrRepeat(action) && p3.blendRadius < 8
              then p3.(blendRadius := p3.blendRadius + 1) else p3;
    var p5 := if key == KeyLeft && PressOrRepeat(action) && p4.blendRadius > 0
              then p4.(blendRadius := p4.blendRadius - 1) else p4;
    if key == KeyEscape && PressOrRepeat(action) then p5.(done := true) else p5
  }

  /** The values the controls can reach from their initialisers: threshold a
      multiple of 4 in [0, 64], radius in [0, 8], jitter 0 or 12. */
  predicate Valid(p: Params) {
    && p.threshold % 4 == 0 && 0 <= p.threshold <= 64
    && 0 <= p.blendRadius <= 8
    && (p.jitter == 0 || p.jitter == 12)
  }

  lemma InitialValid()
    ensures Valid(InitialParams) && !InitialParams.done
  {
  }

  /** Every key event keeps the parameters within their bounds. */
  lemma KeyCallbackPreservesValid(p: Params, key: int, action: int)
    requires Valid(p)
    ensures Valid(KeyCallback(p, key, action))
  {
  }

  /** J reacts to a press only, not to auto-repeat or release. */
  lemma JitterToggle(p: Params, action: int)
    ensures var q := KeyCallback(p, KeyJ, action);
      && (action == Press ==> q == p.(jitter := if p.jitter == 0 then 12 else 0))
      && (action != Press ==> q == p)
  {
  }

  /** Pressing J twice restores the jitter mode exactly when it was one of
      the two values the toggle produces. */
  lemma JitterToggleTwice(p: Params)
    ensures KeyCallback(KeyCallback(p, KeyJ, Press), KeyJ, Press) == p <==> (p.jitter == 0 || p.jitter == 12)
  {
  }

  /** UP raises the threshold by 4 while below 64 and DOWN undoes it; DOWN
      lowers it by 4 while at least 4 and UP undoes it. At the bounds the
      keys do nothing. */
  lemma ThresholdSteps(p: Params, action: int)
    requires Valid(p) && PressOrRepeat(action)
    ensures var up := KeyCallback(p, KeyUp, action);
      var down := KeyCallback(p, KeyDown, action);
      && (p.threshold < 64 ==> up.threshold == p.threshold + 4 && KeyCallback(up, KeyDown, action) == p)
      && (p.threshold == 64 ==> up == p)
      && (p.threshold >= 4 ==> down.threshold == p.threshold - 4 && KeyCallback(down, KeyUp, action) == p)
      && (p.threshold == 0 ==> down == p)
  {
  }

  /** RIGHT and LEFT step the radius by 1 within [0, 8], each undoing the
      other away from the bounds. */
  lemma RadiusSteps(p: Params, action: int)
    requires Valid(p) && PressOrRepeat(action)
    ensures var right := KeyCallback(p, KeyRight, action);
      var left := KeyCallback(p, KeyLeft, action);
      && (p.blendRadius < 8 ==> right.blendRadius == p.blendRadius + 1 && KeyCallback(right, KeyLeft, action) == p)
      && (p.blendRadius == 8 ==> right == p)
      && (p.blendRadius > 0 ==> left.blendRadius == p.blendRadius - 1 && KeyCallback(left, KeyRight, action) == p)
      && (p.blendRadius == 0 ==> left == p)
  {
  }

  /** A key event delivered by GLFW. */
  datatype KeyEvent = KeyEvent(key: int, action: int)

  /** The callback applied to a sequence of key events. */
  function ApplyKeys(p: Params, keys: seq<KeyEvent>): Params
    decreases |keys|
  {
    if |keys| == 0 then p else ApplyKeys(KeyCallback(p, keys[0].key, keys[0].action), keys[1..])
  }

  /** Whatever keys are pressed, the parameters stay within their bounds and
      a quit request is never withdrawn. */
  lemma {:induction false} ApplyKeysValid(p: Params, keys: seq<KeyEvent>)
    requires Valid(p)
    ensures Valid(ApplyKeys(p, keys))
    ensures p.done ==> ApplyKeys(p, keys).done
    decreases |keys|
  {
    if |keys| > 0 {
      KeyCallbackPreservesValid(p, keys[0].key, keys[0].action);
      ApplyKeysValid(KeyCallback(p, keys[0].key, keys[0].action), keys[1..]);
    }
  }

  /** Everything reachable from the initialisers is Valid. */
  lemma ReachableValid(keys: seq<KeyEvent>)
    ensures Valid(ApplyKeys(InitialParams, keys))
  {
    ApplyKeysValid(InitialParams, keys);
  }
}
