/**
 The per-controller event translator of SuperTuxKart's SDL input layer.
 One `Controller` value is the state of one `SDLController` object: the
 capability counts reported by the device, the Irrlicht joystick event it
 keeps up to date (axis values and the `ButtonStates` word) and the
 previous-axis buffer. Each handler is a pure function from the old state
 and one SDL event to a success flag and the new state.
 */
module SdlController {

  /** A signed 16-bit axis reading (`Sint16` in SDL, `s16` in Irrlicht). */
  type Int16 = x: int | -0x8000 <= x < 0x8000

  /** A signed 32-bit `int`, the type of the capability counts. */
  type Int32 = x: int | -0x8000_0000 <= x < 0x8000_0000

  predicate InInt32(x: int)
  {
    -0x8000_0000 <= x < 0x8000_0000
  }

  /** Width of the `ButtonStates` word. The caller's change bitset has the
      same size; the model represents it as a set of indices, and a hat
      event only ever adds indices of its own window, all below `Width`. */
  const Width: nat := 32

  /** The 32-bit `ButtonStates` word, bit by bit: entry `k` is bit `k`, and
      it is true when button `k` is held down. */
  type ButtonMask = s: seq<bool> | |s| == Width witness seq(32, _ => false)

  /** The joystick part of the Irrlicht event returned by `getEvent`. */
  datatype JoystickEvent = JoystickEvent(axis: seq<Int16>, buttonStates: ButtonMask)

  /** The state of one translator. `buttonCount` already includes four
      synthesized buttons per hat, placed after the physical ones. */
  datatype Controller = Controller(
    axisCount: Int32,
    buttonCount: Int32,
    hatCount: Int32,
    event: JoystickEvent,
    prevAxes: seq<Int16>)

  /** Both axis buffers are fixed arrays of the same capacity. */
  predicate Wellformed(c: Controller)
  {
    |c.event.axis| == |c.prevAxes|
  }

  /** The snapshot handed to the input-mapping layer. */
  function GetEvent(c: Controller): JoystickEvent
  {
    c.event
  }

  /** Result of an axis or button event: accepted or not, and the new state. */
  datatype Outcome = Outcome(ok: bool, state: Controller)

  /** Result of a hat event: also the caller's change set, with the indices
      of synthesized buttons that flipped added to it. */
  datatype HatOutcome = HatOutcome(ok: bool, state: Controller, changed: set<nat>)

  /** Everything except the button word is the same in `c` and `d`. */
  predicate SameExceptButtons(c: Controller, d: Controller)
  {
    && d.axisCount == c.axisCount
    && d.buttonCount == c.buttonCount
    && d.hatCount == c.hatCount
    && d.event.axis == c.event.axis
    && d.prevAxes == c.prevAxes
  }

  // ---------------------------------------------------------------------------
  // Axes

  /** An axis index is rejected only when it is strictly above the axis
      count; an accepted index must address a slot of both buffers. */
  predicate AxisDefined(c: Controller, axis: nat)
  {
    axis > c.axisCount || axis < |c.prevAxes|
  }

  function HandleAxis(c: Controller, axis: nat, value: Int16): (r: Outcome)
    requires Wellformed(c) && AxisDefined(c, axis)
    ensures Wellformed(r.state)
    ensures r.ok <==> axis <= c.axisCount
    ensures !r.ok ==> r.state == c
    ensures |r.state.prevAxes| == |c.prevAxes|
    ensures r.ok ==>
      && r.state.event.axis[axis] == value
      && r.state.prevAxes[axis] == value
    ensures forall j :: 0 <= j < |c.prevAxes| && j != axis ==>
      r.state.event.axis[j] == c.event.axis[j] && r.state.prevAxes[j] == c.prevAxes[j]
    ensures r.state.event.buttonStates == c.event.buttonStates
    ensures r.state.axisCount == c.axisCount && r.state.buttonCount == c.buttonCount
      && r.state.hatCount == c.hatCount
  {
    if axis > c.axisCount then
      Outcome(false, c)
    else
      Outcome(true, c.(event := c.event.(axis := c.event.axis[axis := value]),
                       prevAxes := c.prevAxes[axis := value]))
  }

  // ---------------------------------------------------------------------------
  // Buttons

  /** A button index is rejected only when it is strictly above the button
      count; an accepted index must be a valid shift amount for 32 bits. */
  predicate ButtonDefined(c: Controller, button: nat)
  {
    button > c.buttonCount || button < Width
  }

  function HandleButton(c: Controller, button: nat, pressed: bool): (r: Outcome)
    requires ButtonDefined(c, button)
    ensures r.ok <==> button <= c.buttonCount
    ensures !r.ok ==> r.state == c
    ensures SameExceptButtons(c, r.state)
    ensures r.ok ==> r.state.event.buttonStates[button] == pressed
    ensures forall j :: 0 <= j < Width && j != button ==>
      r.state.event.buttonStates[j] == c.event.buttonStates[j]
  {
    if button > c.buttonCount then
      Outcome(false, c)
    else
      // `|= 1 << button` on a press, `&= ~(1 << button)` on a release
      Outcome(true, c.(event := c.event.(buttonStates :=
        c.event.buttonStates[button := pressed])))
  }

  // ---------------------------------------------------------------------------
  // Hats

  /** The value of an SDL hat event. Values that are none of the nine
      named positions are `Unrecognised`. */
  datatype HatValue =
    | Centered | Up | RightUp | Right | RightDown | Down | LeftDown | Left | LeftUp
    | Unrecognised

  /** Pressed flags of the four synthesized buttons of a hat. */
  type HatStatus = s: seq<bool> | |s| == 4 witness [false, false, false, false]

  const Released: HatStatus := [false, false, false, false]

  /** Positions of the four directions inside a hat's window. */
  const UpBit: nat := 0
  const RightBit: nat := 1
  const DownBit: nat := 2
  const LeftBit: nat := 3

  /** The direction table of `handleHat`: a straight position presses one
      virtual button, a diagonal presses its two neighbours. */
  function StatusOf(v: HatValue): HatStatus
  {
    match v
    case Up => [true, false, false, false]
    case RightUp => [true, true, false, false]
    case Right => [false, true, false, false]
    case RightDown => [false, true, true, false]
    case Down => [false, false, true, false]
    case LeftDown => [false, false, true, true]
    case Left => [false, false, false, true]
    case LeftUp => [true, false, false, true]
    case Centered => Released
    case Unrecognised => Released
  }

  /** First bit of hat `hat`'s window: hats sit after the physical buttons. */
  function HatStart(c: Controller, hat: nat): int
  {
    c.buttonCount - c.hatCount * 4 + hat * 4
  }

  /** Whether bit `j` is one of the four bits of hat `hat`. */
  predicate InHatWindow(c: Controller, hat: nat, j: int)
  {
    HatStart(c, hat) <= j < HatStart(c, hat) + 4
  }

  /** A hat index is rejected only when it is strictly above the hat count.
      For an accepted index, the `int` arithmetic of the window offset must
      not overflow, and the whole window must lie inside the 32-bit word. */
  predicate HatDefined(c: Controller, hat: nat)
  {
    || hat > c.hatCount
    || (&& InInt32(c.hatCount * 4)
        && InInt32(c.buttonCount - c.hatCount * 4)
        && 0 <= HatStart(c, hat) && HatStart(c, hat) + 4 <= Width)
  }

  /** Bit indices among window positions `from..3` whose old value in `m`
      differs from `status`. */
  function Flipped(m: ButtonMask, start: nat, status: HatStatus, from: nat): set<nat>
    requires start + 4 <= Width
  {
    set d: nat | from <= d < 4 && m[start + d] != status[d] :: start + d
  }

  lemma FlippedStep(m: ButtonMask, start: nat, status: HatStatus, i: nat)
    requires start + 4 <= Width && i < 4
    ensures Flipped(m, start, status, i) ==
      Flipped(m, start, status, i + 1) + (if m[start + i] != status[i] then {start + i} else {})
  {
  }

  lemma FlippedEmpty(m: ButtonMask, start: nat, status: HatStatus)
    requires start + 4 <= Width
    ensures Flipped(m, start, status, 4) == {}
  {
  }

  /** Only the old values of bits `start + from..start + 3` matter. */
  lemma FlippedFrame(m: ButtonMask, m': ButtonMask, start: nat, status: HatStatus, from: nat)
    requires start + 4 <= Width
    requires forall j :: start + from <= j < start + 4 ==> m[j] == m'[j]
    ensures Flipped(m, start, status, from) == Flipped(m', start, status, from)
  {
  }

  /** Result of writing a hat window: the new word and the change set. */
  datatype HatWrite = HatWrite(buttonStates: ButtonMask, changed: set<nat>)

  /** The loop of `handleHat` from position `i` on: for each window bit,
      read its old value, write the new one, and record a flip. Bits already
      written are never read again, so every read sees the value from
      before the event. */
  function WriteHatButtons(m: ButtonMask, changed: set<nat>, start: nat, status: HatStatus, i: nat)
    : (r: HatWrite)
    requires start + 4 <= Width && i <= 4
    ensures forall j :: 0 <= j < Width ==>
      r.buttonStates[j] == (if start + i <= j < start + 4 then status[j - start] else m[j])
    decreases 4 - i
  {
    if i == 4 then
      HatWrite(m, changed)
    else
      var id := start + i;
      var changed' := if m[id] != status[i] then changed + {id} else changed;
      WriteHatButtons(m[id := status[i]], changed', start, status, i + 1)
  }

  /** The loop adds to the change set exactly the window bits whose value
      before the event differs from the new status. */
  lemma {:induction false} WriteHatButtonsChanged(
    m: ButtonMask, changed: set<nat>, start: nat, status: HatStatus, i: nat)
    requires start + 4 <= Width && i <= 4
    ensures WriteHatButtons(m, changed, start, status, i).changed ==
      changed + Flipped(m, start, status, i)
    decreases 4 - i
  {
    if i == 4 {
      FlippedEmpty(m, start, status);
    } else {
      var id := start + i;
      var m' := m[id := status[i]];
      var changed' := if m[id] != status[i] then changed + {id} else changed;
      WriteHatButtonsChanged(m', changed', start, status, i + 1);
      FlippedFrame(m, m', start, status, i + 1);
      FlippedStep(m, start, status, i);
    }
  }

  function HandleHat(c: Controller, hat: nat, value: HatValue, changed: set<nat>): (r: HatOutcome)
    requires HatDefined(c, hat)
    ensures r.ok <==> hat <= c.hatCount
    ensures !r.ok ==> r.state == c && r.changed == changed
    ensures SameExceptButtons(c, r.state)
    ensures r.ok ==>
      r.state.event.buttonStates[HatStart(c, hat)..HatStart(c, hat) + 4] == StatusOf(value)
    ensures forall j :: 0 <= j < Width && !(r.ok && InHatWindow(c, hat, j)) ==>
      r.state.event.buttonStates[j] == c.event.buttonStates[j]
    ensures changed <= r.changed
    ensures r.ok ==>
      r.changed == changed + Flipped(c.event.buttonStates, HatStart(c, hat), StatusOf(value), 0)
  {
    if hat > c.hatCount then
      HatOutcome(false, c, changed)
    else
      var w := WriteHatButtons(c.event.buttonStates, changed, HatStart(c, hat), StatusOf(value), 0);
      WriteHatButtonsChanged(c.event.buttonStates, changed, HatStart(c, hat), StatusOf(value), 0);
      HatOutcome(true, c.(event := c.event.(buttonStates := w.buttonStates)), w.changed)
  }
}
