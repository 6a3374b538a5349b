/**
 * The scene manager: the ordered list of the seventeen scenes, the index of
 * the one on show, switching with wrap-around in either direction, and the
 * horizontal swipe that asks for a switch. Each scene's `init` is recorded as
 * the index it ran on; what it does to the scene is modelled per scene.
 */
module Scenes {

  /** The display names of `scenes`, in their order. */
  const SceneNames: seq<string> := [
    "Antigravity", "Gravity", "Vortex", "Ripple", "Galaxy", "Matrix Rain",
    "Flow Field", "Voronoi", "Sine Waves", "Boids (Flocking)", "Game of Life",
    "Kaleidoscope", "Hyperspace", "Moire Patterns", "Quantum Field",
    "Neural Network", "Fractal Roots"
  ]

  /** `scenes.length` */
  const SceneCount: int := 17

  lemma SceneCountMatchesNames()
    ensures |SceneNames| == SceneCount
  {
  }

  /**
   * The index `switchScene(direction)` moves to: one forward for "next" and
   * one back for "prev", wrapping at both ends; any other direction keeps it.
   */
  function SwitchIndex(i: int, direction: string): (r: int)
    requires 0 <= i < SceneCount
    ensures 0 <= r < SceneCount
    ensures direction == "next" ==> (if i == SceneCount - 1 then r == 0 else r == i + 1)
    ensures direction == "prev" ==> (if i == 0 then r == SceneCount - 1 else r == i - 1)
    ensures direction != "next" && direction != "prev" ==> r == i
  {
    if direction == "next" then (i + 1) % SceneCount
    else if direction == "prev" then (i - 1 + SceneCount) % SceneCount
    else i
  }

  /** "prev" undoes "next" and "next" undoes "prev". */
  lemma PrevUndoesNext(i: int)
    requires 0 <= i < SceneCount
    ensures SwitchIndex(SwitchIndex(i, "next"), "prev") == i
    ensures SwitchIndex(SwitchIndex(i, "prev"), "next") == i
  {
  }

  /** The indices `init` runs on, in order, for a sequence of switches from index `i`. */
  function Trace(i: int, directions: seq<string>): (t: seq<int>)
    requires 0 <= i < SceneCount
    ensures |t| == |directions|
    ensures forall k | 0 <= k < |t| :: 0 <= t[k] < SceneCount
    decreases |directions|
  {
    if directions == [] then []
    else
      var j := SwitchIndex(i, directions[0]);
      [j] + Trace(j, directions[1..])
  }

  /** The index after a sequence of switches from index `i`. */
  function Final(i: int, directions: seq<string>): (r: int)
    requires 0 <= i < SceneCount
    ensures 0 <= r < SceneCount
    ensures directions != [] ==> r == Trace(i, directions)[|directions| - 1]
    ensures directions == [] ==> r == i
    decreases |directions|
  {
    if directions == [] then i else Final(SwitchIndex(i, directions[0]), directions[1..])
  }

  function Repeat(direction: string, k: nat): (s: seq<string>)
    ensures |s| == k
    ensures forall t | 0 <= t < k :: s[t] == direction
  {
    seq(k, _ => direction)
  }

  /** k "next" switches visit the scenes after `i` in order, wrapping around. */
  lemma {:induction false} NextTrace(i: int, k: nat)
    requires 0 <= i < SceneCount
    ensures forall t | 0 <= t < k :: Trace(i, Repeat("next", k))[t] == (i + t + 1) % SceneCount
    decreases k
  {
    if k > 0 {
      var j := SwitchIndex(i, "next");
      assert Repeat("next", k)[1..] == Repeat("next", k - 1);
      NextTrace(j, k - 1);
      forall t | 0 <= t < k ensures Trace(i, Repeat("next", k))[t] == (i + t + 1) % SceneCount {
        if t > 0 {
          assert Trace(i, Repeat("next", k))[t] == Trace(j, Repeat("next", k - 1))[t - 1];
          assert (j + t) % SceneCount == (i + t + 1) % SceneCount by {
            if i == SceneCount - 1 {
              assert (t + SceneCount) % SceneCount == t % SceneCount;
            }
          }
        }
      }
    }
  }

  /**
   * `scenes.length` "next" switches return to the starting index, having run
   * `init` once on every scene.
   */
  lemma FullCycle(i: int)
    requires 0 <= i < SceneCount
    ensures Final(i, Repeat("next", SceneCount)) == i
    ensures |Trace(i, Repeat("next", SceneCount))| == SceneCount
    ensures forall s | 0 <= s < SceneCount :: s in Trace(i, Repeat("next", SceneCount))
  {
    var t := Trace(i, Repeat("next", SceneCount));
    NextTrace(i, SceneCount);
    assert t[SceneCount - 1] == i;
    forall s | 0 <= s < SceneCount ensures s in t {
      var k := if s > i then s - i - 1 else s - i - 1 + SceneCount;
      assert t[k] == s;
    }
  }

  /** The dead zone of a swipe, in pixels. */
  const SwipeThreshold: real := 50.0

  /**
   * `handleSwipe`: the switches a horizontal swipe from `touchStart` to
   * `touchEnd` asks for, in the order its two tests make them.
   */
  function SwipeDirections(touchStart: real, touchEnd: real): (d: seq<string>)
    ensures |d| <= 1
    ensures d == ["next"] <==> touchEnd < touchStart - SwipeThreshold
    ensures d == ["prev"] <==> touchEnd > touchStart + SwipeThreshold
    ensures d == [] <==> -SwipeThreshold <= touchEnd - touchStart <= SwipeThreshold
  {
    assert ["next"] != ["prev"] by {
      assert ["next"][0][0] != ["prev"][0][0];
    }
    (if touchEnd < touchStart - SwipeThreshold then ["next"] else [])
    + (if touchEnd > touchStart + SwipeThreshold then ["prev"] else [])
  }

  /** The manager's state: the current index, the published name and the viewport. */
  class SceneManager {
    var current: int
    var modeName: string
    var width: real
    var height: real
    /** The index of every scene `init` has run on, in order. */
    ghost var inits: seq<int>

    ghost predicate Valid()
      reads this
    {
      0 <= current < SceneCount && modeName == SceneNames[current]
    }

    /** Start-up: the first scene is current and its name is shown. */
    constructor ()
      ensures Valid() && current == 0 && inits == []
    {
      current := 0;
      modeName := SceneNames[0];
      width, height := 0.0, 0.0;
      inits := [];
    }

    /** `switchScene(direction)`: move the index, run `init` on that scene, publish its name. */
    method Switch(direction: string)
      requires Valid()
      modifies this
      ensures Valid()
      ensures current == SwitchIndex(old(current), direction)
      ensures inits == old(inits) + [current]
      ensures width == old(width) && height == old(height)
    {
      if direction == "next" {
        current := (current + 1) % SceneCount;
      } else if direction == "prev" {
        current := (current - 1 + SceneCount) % SceneCount;
      }
      inits := inits + [current];
      modeName := SceneNames[current];
    }

    /** `resize`: take the new viewport and run `init` on the current scene only. */
    method Resize(newWidth: real, newHeight: real)
      requires Valid()
      modifies this
      ensures Valid()
      ensures current == old(current) && width == newWidth && height == newHeight
      ensures inits == old(inits) + [current]
    {
      width, height := newWidth, newHeight;
      inits := inits + [current];
    }

    /** `handleSwipe`: at most one switch, in the direction of a swipe longer than the dead zone. */
    method HandleSwipe(touchStart: real, touchEnd: real)
      requires Valid()
      modifies this
      ensures Valid()
      ensures current == Final(old(current), SwipeDirections(touchStart, touchEnd))
      ensures inits == old(inits) + Trace(old(current), SwipeDirections(touchStart, touchEnd))
      ensures |inits| <= |old(inits)| + 1
      ensures width == old(width) && height == old(height)
    {
      if touchEnd < touchStart - SwipeThreshold {
        Switch("next");
      }
      if touchEnd > touchStart + SwipeThreshold {
        Switch("prev");
      }
    }
  }
}
