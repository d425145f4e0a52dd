/** Detecting two taps of the same modifier key. */
module DoubleTap {
  import opened Text

  const WINDOW := 300.0

  datatype Modifier = Cmd | Ctrl | Alt | Shift

  datatype KeyType = KeyDown | KeyUp

  /** A key event; `modifierOnly` says that no other modifier is held. */
  datatype KeyEvent = KeyEvent(keyType: KeyType, modifier: Option<Modifier>, modifierOnly: bool, autoRepeat: bool)

  /** What a detector is told: an event and its time in milliseconds, or to begin again. */
  datatype Input = Process(event: KeyEvent, time: real) | Reset

  datatype DetectorState = Idle | Down(modifier: Modifier) | Armed(modifier: Modifier, deadline: real)

  // ---- The inputs that matter ----

  predicate IsBare(input: Input, keyType: KeyType, m: Modifier) {
    input.Process? && input.event.keyType == keyType && input.event.modifier == Some(m) && input.event.modifierOnly
  }

  predicate IsFreshPress(input: Input, m: Modifier) {
    IsBare(input, KeyDown, m) && !input.event.autoRepeat
  }

  predicate IsRelease(input: Input, m: Modifier) {
    IsBare(input, KeyUp, m)
  }

  /** A bare release of another modifier, the only input that leaves a gesture as it is. */
  predicate IsOtherRelease(input: Input, m: Modifier) {
    input.Process? && input.event.keyType == KeyUp && input.event.modifierOnly
    && input.event.modifier.Some? && input.event.modifier != Some(m)
  }

  // ---- Specification over histories ----

  /** A press at p that completed no double tap and still counts before n. */
  ghost predicate IsPressed(h: seq<Input>, p: nat, n: nat, m: Modifier)
    decreases n, 0
  {
    && p < n <= |h| && IsFreshPress(h[p], m) && !IsDoubleTap(h, p)
    && forall k :: p < k < n ==> IsOtherRelease(h[k], m)
  }

  /** A tap that still counts before n: a press at p that completed no double tap, the release at r,
      and nothing else since but releases of other modifiers. */
  ghost predicate IsTapped(h: seq<Input>, p: nat, r: nat, n: nat, m: Modifier)
    decreases n, 0
  {
    && p < r < n <= |h| && IsFreshPress(h[p], m) && !IsDoubleTap(h, p) && IsRelease(h[r], m)
    && forall k :: p < k < n && k != r ==> IsOtherRelease(h[k], m)
  }

  /** The tap at p and r makes the press at n the second of a double tap. */
  ghost predicate IsSecond(h: seq<Input>, p: nat, r: nat, n: nat, m: Modifier)
    requires n < |h|
    decreases n, 1
  {
    IsTapped(h, p, r, n, m) && IsFreshPress(h[n], m) && h[n].time <= h[r].time + WINDOW
  }

  ghost predicate IsDoubleTap(h: seq<Input>, n: nat)
    decreases n, 2
  {
    n < |h| && exists p: nat, r: nat, m: Modifier :: IsSecond(h, p, r, n, m)
  }

  // ---- The state machine ----

  function NextDown(state: DetectorState, m: Modifier, autoRepeat: bool, time: real): DetectorState {
    if Completes(state, m, autoRepeat, time) || autoRepeat then Idle else Down(m)
  }

  predicate Completes(state: DetectorState, m: Modifier, autoRepeat: bool, time: real) {
    state.Armed? && state.modifier == m && !autoRepeat && time <= state.deadline
  }

  function NextUp(state: DetectorState, m: Modifier, time: real): DetectorState {
    if state == Down(m) then Armed(m, time + WINDOW)
    else if state.Armed? && state.modifier == m then Idle
    else state
  }

  function Next(state: DetectorState, input: Input): DetectorState {
    match input
    case Reset => Idle
    case Process(event, time) =>
      if event.modifier.None? || !event.modifierOnly then Idle
      else if event.keyType == KeyUp then NextUp(state, event.modifier.value, time)
      else NextDown(state, event.modifier.value, event.autoRepeat, time)
  }

  function Detected(state: DetectorState, input: Input): Option<Modifier> {
    match input
    case Reset => None
    case Process(event, time) =>
      if event.modifier.None? || !event.modifierOnly || event.keyType == KeyUp
         || !Completes(state, event.modifier.value, event.autoRepeat, time) then None
      else event.modifier
  }

  /** The state after the first n inputs. */
  function StateAt(h: seq<Input>, n: nat): DetectorState
    requires n <= |h|
  {
    if n == 0 then Idle else Next(StateAt(h, n - 1), h[n - 1])
  }

  // ---- The machine meets the specification ----

  lemma {:induction false} DownIsPressed(h: seq<Input>, n: nat) returns (p: nat)
    requires n <= |h| && StateAt(h, n).Down?
    ensures IsPressed(h, p, n, StateAt(h, n).modifier)
    decreases n, 0
  {
    var before, input, m := StateAt(h, n - 1), h[n - 1], StateAt(h, n).modifier;
    if IsFreshPress(input, m) {
      DetectionIsDoubleTap(h, n - 1);
      p := n - 1;
    } else {
      assert before == Down(m) && IsOtherRelease(input, m);
      p := DownIsPressed(h, n - 1);
    }
  }

  lemma {:induction false} ArmedIsTapped(h: seq<Input>, n: nat) returns (p: nat, r: nat)
    requires n <= |h| && StateAt(h, n).Armed?
    ensures IsTapped(h, p, r, n, StateAt(h, n).modifier) && StateAt(h, n).deadline == h[r].time + WINDOW
    decreases n, 0
  {
    var before, input := StateAt(h, n - 1), h[n - 1];
    if before.Down? {
      p := DownIsPressed(h, n - 1);
      r := n - 1;
    } else {
      assert before == StateAt(h, n) && IsOtherRelease(input, before.modifier);
      p, r := ArmedIsTapped(h, n - 1);
    }
  }

  lemma {:induction false} PressedIsDown(h: seq<Input>, p: nat, n: nat, m: Modifier)
    requires IsPressed(h, p, n, m)
    ensures StateAt(h, n) == Down(m)
    decreases n, 0
  {
    if p == n - 1 {
      DetectionIsDoubleTap(h, p);
    } else {
      PressedIsDown(h, p, n - 1, m);
    }
  }

  lemma {:induction false} TappedIsArmed(h: seq<Input>, p: nat, r: nat, n: nat, m: Modifier)
    requires IsTapped(h, p, r, n, m)
    ensures StateAt(h, n) == Armed(m, h[r].time + WINDOW)
    decreases n, 0
  {
    if r == n - 1 {
      PressedIsDown(h, p, n - 1, m);
    } else {
      TappedIsArmed(h, p, r, n - 1, m);
    }
  }

  lemma SecondOf(h: seq<Input>, n: nat) returns (p: nat, r: nat, m: Modifier)
    requires n < |h| && IsDoubleTap(h, n)
    ensures IsSecond(h, p, r, n, m)
  {
    p, r, m :| IsSecond(h, p, r, n, m);
  }

  /** An input is reported exactly when it is the second press of a double tap, and then with the
      modifier of that press. */
  lemma {:induction false} DetectionIsDoubleTap(h: seq<Input>, n: nat)
    requires n < |h|
    ensures Detected(StateAt(h, n), h[n]).Some? <==> IsDoubleTap(h, n)
    ensures Detected(StateAt(h, n), h[n]).Some? ==> IsFreshPress(h[n], Detected(StateAt(h, n), h[n]).value)
    decreases n, 1
  {
    if Detected(StateAt(h, n), h[n]).Some? {
      var p, r := ArmedIsTapped(h, n);
      assert IsSecond(h, p, r, n, StateAt(h, n).modifier);
    }
    if IsDoubleTap(h, n) {
      var p, r, m := SecondOf(h, n);
      TappedIsArmed(h, p, r, n, m);
    }
  }

  // ---- What follows for whole histories ----

  /** No press serves two double taps: the later one begins after the earlier one has ended. */
  lemma NoPressServesTwice(h: seq<Input>, p: nat, r: nat, n: nat, m: Modifier, q: nat, s: nat, o: nat, l: Modifier)
    requires n < o < |h| && IsSecond(h, p, r, n, m) && IsSecond(h, q, s, o, l)
    ensures n < q
  {
    assert IsDoubleTap(h, n);
  }

  /** The tap that a double tap completes is determined. */
  lemma TapIsDetermined(h: seq<Input>, p: nat, r: nat, n: nat, m: Modifier, q: nat, s: nat, l: Modifier)
    requires n < |h| && IsSecond(h, p, r, n, m) && IsSecond(h, q, s, n, l)
    ensures p == q && r == s && m == l
  {
    TappedIsArmed(h, p, r, n, m);
    TappedIsArmed(h, q, s, n, l);
  }

  lemma {:induction false} StateOfPrefix(h: seq<Input>, input: Input, n: nat)
    requires n <= |h|
    ensures StateAt(h + [input], n) == StateAt(h, n)
  {
    if n > 0 { StateOfPrefix(h, input, n - 1); }
  }

  // ---- The code ----

  class Detector {
    var state: DetectorState
    ghost var history: seq<Input>

    ghost predicate Valid()
      reads this
    {
      state == StateAt(history, |history|)
    }

    constructor ()
      ensures Valid() && history == []
    {
      state := Idle;
      history := [];
    }

    /** The answer to an event depends on the whole history: it is its modifier exactly when the
        event is the second press of a double tap. */
    method Process(event: KeyEvent, time: real) returns (tap: Option<Modifier>)
      requires Valid()
      modifies this
      ensures Valid() && history == old(history) + [Input.Process(event, time)]
      ensures tap == if IsDoubleTap(history, |history| - 1) then event.modifier else None
    {
      history := history + [Input.Process(event, time)];
      StateOfPrefix(old(history), Input.Process(event, time), |old(history)|);
      DetectionIsDoubleTap(history, |history| - 1);
      hide IsDoubleTap;
      if event.modifier.None? || !event.modifierOnly {
        state := Idle;
        return None;
      }
      if event.keyType == KeyUp {
        OnModifierUp(event.modifier.value, time);
        return None;
      }
      tap := OnModifierDown(event.modifier.value, event.autoRepeat, time);
    }

    method Restart()
      requires Valid()
      modifies this
      ensures Valid() && history == old(history) + [Reset]
    {
      history := history + [Reset];
      StateOfPrefix(old(history), Reset, |old(history)|);
      state := Idle;
    }

    method OnModifierDown(m: Modifier, autoRepeat: bool, time: real) returns (tap: Option<Modifier>)
      modifies this`state
      ensures state == NextDown(old(state), m, autoRepeat, time)
      ensures tap == if Completes(old(state), m, autoRepeat, time) then Some(m) else None
    {
      if state.Armed? && state.modifier == m && !autoRepeat && time <= state.deadline {
        state := Idle;
        return Some(m);
      }
      if autoRepeat {
        state := Idle;
        return None;
      }
      state := Down(m);
      return None;
    }

    method OnModifierUp(m: Modifier, time: real)
      modifies this`state
      ensures state == NextUp(old(state), m, time)
    {
      if state == Down(m) {
        state := Armed(m, time + WINDOW);
        return;
      }
      if state.Armed? && state.modifier == m {
        state := Idle;
      }
    }
  }
}
