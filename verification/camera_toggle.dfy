/** The camera-mode toggle of `processInput`: key C flips between perspective
    and orthographic projection once per press. The function-local `static`
    latch `cPressed` becomes explicit state threaded from frame to frame; the
    per-frame input is whether key C reads as pressed.
 */
module CameraToggle {

  datatype Toggle = Toggle(perspective: bool, cPressed: bool)

  /** `perspectiveCamera = true` in `main`, `cPressed = false` at first call. */
  const Initial: Toggle := Toggle(true, false)

  /** One frame. The latch ends up equal to the key, and the mode flips
      exactly when the key is down and was not latched. */
  function Step(s: Toggle, cDown: bool): (r: Toggle)
    ensures r.cPressed == cDown
    ensures r.perspective != s.perspective <==> cDown && !s.cPressed
  {
    if cDown then
      if !s.cPressed then Toggle(!s.perspective, true) else s
    else
      s.(cPressed := false)
  }

  /** The frames in order. */
  function Run(s: Toggle, keys: seq<bool>): Toggle
    decreases |keys|
  {
    if |keys| == 0 then s else Run(Step(s, keys[0]), keys[1..])
  }

  /** How many frames of the run changed the mode. */
  function Flips(s: Toggle, keys: seq<bool>): nat
    decreases |keys|
  {
    if |keys| == 0 then 0
    else (if Step(s, keys[0]).perspective != s.perspective then 1 else 0) + Flips(Step(s, keys[0]), keys[1..])
  }

  /** Presses in the input alone: frames with the key down whose previous
      frame (`prev` before the first) had it up. */
  function RisingEdges(prev: bool, keys: seq<bool>): nat
    decreases |keys|
  {
    if |keys| == 0 then 0
    else (if keys[0] && !prev then 1 else 0) + RisingEdges(keys[0], keys[1..])
  }

  /** The latch remembers the last key sample, and the mode changes once per
      press: the number of flips is the number of rising edges, so the final
      mode is the initial one flipped by their parity. */
  lemma {:induction false} FlipsAreRisingEdges(s: Toggle, keys: seq<bool>)
    ensures Flips(s, keys) == RisingEdges(s.cPressed, keys)
    ensures Run(s, keys).perspective == (s.perspective != (RisingEdges(s.cPressed, keys) % 2 == 1))
    ensures Run(s, keys).cPressed == if |keys| == 0 then s.cPressed else keys[|keys| - 1]
    decreases |keys|
  {
    if |keys| > 0 {
      FlipsAreRisingEdges(Step(s, keys[0]), keys[1..]);
      if |keys| > 1 {
        assert keys[1..][|keys[1..]| - 1] == keys[|keys| - 1];
      }
    }
  }

  /** Holding the key across `n` frames after a release flips the mode once. */
  lemma {:induction false} HeldKeyFlipsOnce(s: Toggle, n: nat)
    requires !s.cPressed && n >= 1
    ensures Run(s, seq(n, _ => true)) == Toggle(!s.perspective, true)
    ensures Flips(s, seq(n, _ => true)) == 1
  {
    var held := seq(n, _ => true);
    var s1 := Step(s, true);
    assert held[1..] == seq(n - 1, _ => true);
    HeldWhileLatchedChangesNothing(s1, n - 1);
  }

  /** While the latch is set and the key stays down, nothing changes. */
  lemma {:induction false} HeldWhileLatchedChangesNothing(s: Toggle, n: nat)
    requires s.cPressed
    ensures Run(s, seq(n, _ => true)) == s
    ensures Flips(s, seq(n, _ => true)) == 0
    decreases n
  {
    if n > 0 {
      assert seq(n, _ => true)[1..] == seq(n - 1, _ => true);
      HeldWhileLatchedChangesNothing(s, n - 1);
    }
  }

  /** Frames with the key up never change the mode, and clear the latch. */
  lemma {:induction false} ReleasedFramesKeepMode(s: Toggle, keys: seq<bool>)
    requires forall k :: 0 <= k < |keys| ==> !keys[k]
    ensures Run(s, keys).perspective == s.perspective
    ensures |keys| > 0 ==> !Run(s, keys).cPressed
    decreases |keys|
  {
    if |keys| > 0 {
      ReleasedFramesKeepMode(Step(s, keys[0]), keys[1..]);
    }
  }
}
