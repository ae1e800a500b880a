/**
 Properties of the translator that relate several events, or an event to an
 independent description of what it should do: the range-check boundaries,
 idempotence and undo of button events, the geometry of the hat table, the
 layout of hat windows, and the change sets of hat event sequences.
 */
module ControllerProperties {
  import opened SdlController

  // ---------------------------------------------------------------------------
  // Axes

  /** The range check compares with `>`, so the index equal to the axis
      count is accepted and written. */
  lemma AxisIndexEqualToCountAccepted(c: Controller, value: Int16)
    requires Wellformed(c)
    requires 0 <= c.axisCount < |c.prevAxes|
    ensures HandleAxis(c, c.axisCount, value).ok
    ensures HandleAxis(c, c.axisCount, value).state.event.axis[c.axisCount] == value
  {
  }

  /** A later event on the same axis overwrites an earlier one completely. */
  lemma AxisLastWriteWins(c: Controller, axis: nat, v1: Int16, v2: Int16)
    requires Wellformed(c) && AxisDefined(c, axis)
    ensures HandleAxis(HandleAxis(c, axis, v1).state, axis, v2) == HandleAxis(c, axis, v2)
  {
  }

  /** Events on two different axes can be applied in either order. */
  lemma AxisEventsCommute(c: Controller, a: nat, va: Int16, b: nat, vb: Int16)
    requires Wellformed(c) && AxisDefined(c, a) && AxisDefined(c, b) && a != b
    ensures HandleAxis(HandleAxis(c, a, va).state, b, vb).state ==
            HandleAxis(HandleAxis(c, b, vb).state, a, va).state
  {
  }

  // ---------------------------------------------------------------------------
  // Buttons

  /** The range check compares with `>`, so the index equal to the button
      count is accepted and written. */
  lemma ButtonIndexEqualToCountAccepted(c: Controller, pressed: bool)
    requires 0 <= c.buttonCount < Width
    ensures HandleButton(c, c.buttonCount, pressed).ok
    ensures HandleButton(c, c.buttonCount, pressed).state.event.buttonStates[c.buttonCount] == pressed
  {
  }

  /** Applying the same button event twice gives the state after one. */
  lemma ButtonIdempotent(c: Controller, button: nat, pressed: bool)
    requires ButtonDefined(c, button)
    ensures HandleButton(HandleButton(c, button, pressed).state, button, pressed) ==
            HandleButton(c, button, pressed)
  {
  }

  /** Releasing a button that a press has just set restores the state from
      before the press, provided the button was up. */
  lemma ButtonReleaseUndoesPress(c: Controller, button: nat)
    requires button <= c.buttonCount && button < Width
    requires !c.event.buttonStates[button]
    ensures HandleButton(HandleButton(c, button, true).state, button, false).state == c
  {
  }

  // ---------------------------------------------------------------------------
  // The snapshot

  /** Axis and button events write disjoint parts of the snapshot returned
      by `getEvent`, so their order does not matter. */
  lemma AxisAndButtonCommute(c: Controller, axis: nat, value: Int16, button: nat, pressed: bool)
    requires Wellformed(c) && AxisDefined(c, axis) && ButtonDefined(c, button)
    ensures GetEvent(HandleButton(HandleAxis(c, axis, value).state, button, pressed).state) ==
            GetEvent(HandleAxis(HandleButton(c, button, pressed).state, axis, value).state)
  {
  }

  // ---------------------------------------------------------------------------
  // Hat direction table

  /** Compass offset of a hat position: right and up are positive. */
  datatype Offset = Offset(dx: int, dy: int)

  function OffsetOf(v: HatValue): Offset
  {
    match v
    case Up => Offset(0, 1)
    case RightUp => Offset(1, 1)
    case Right => Offset(1, 0)
    case RightDown => Offset(1, -1)
    case Down => Offset(0, -1)
    case LeftDown => Offset(-1, -1)
    case Left => Offset(-1, 0)
    case LeftUp => Offset(-1, 1)
    case Centered => Offset(0, 0)
    case Unrecognised => Offset(0, 0)
  }

  /** Directions pressed by a status, as window positions. */
  function Pressed(s: HatStatus): set<nat>
  {
    set i: nat | i < 4 && s[i]
  }

  /** The table presses exactly the components of the compass offset. */
  lemma StatusFollowsOffset(v: HatValue)
    ensures StatusOf(v)[UpBit] <==> OffsetOf(v).dy > 0
    ensures StatusOf(v)[RightBit] <==> OffsetOf(v).dx > 0
    ensures StatusOf(v)[DownBit] <==> OffsetOf(v).dy < 0
    ensures StatusOf(v)[LeftBit] <==> OffsetOf(v).dx < 0
  {
  }

  /** Centered and unrecognised values press nothing, a straight position
      presses its own button, a diagonal presses its two neighbours. */
  lemma DirectionTable()
    ensures Pressed(StatusOf(Centered)) == {}
    ensures Pressed(StatusOf(Unrecognised)) == {}
    ensures Pressed(StatusOf(Up)) == {UpBit}
    ensures Pressed(StatusOf(Right)) == {RightBit}
    ensures Pressed(StatusOf(Down)) == {DownBit}
    ensures Pressed(StatusOf(Left)) == {LeftBit}
    ensures Pressed(StatusOf(RightUp)) == {UpBit, RightBit}
    ensures Pressed(StatusOf(RightDown)) == {RightBit, DownBit}
    ensures Pressed(StatusOf(LeftDown)) == {DownBit, LeftBit}
    ensures Pressed(StatusOf(LeftUp)) == {LeftBit, UpBit}
  {
  }

  /** No position presses two opposite directions. */
  lemma NoOppositeDirections(v: HatValue)
    ensures !(StatusOf(v)[UpBit] && StatusOf(v)[DownBit])
    ensures !(StatusOf(v)[LeftBit] && StatusOf(v)[RightBit])
  {
  }

  // ---------------------------------------------------------------------------
  // Hat windows

  /** Windows of distinct hats never share a bit. */
  lemma HatWindowsDisjoint(c: Controller, h1: nat, h2: nat, j: int)
    requires h1 != h2
    ensures !(InHatWindow(c, h1, j) && InHatWindow(c, h2, j))
  {
  }

  /** The window of every hat below the hat count lies between the physical
      buttons and the button count. */
  lemma HatWindowInHatRange(c: Controller, hat: nat, j: int)
    requires hat < c.hatCount
    requires InHatWindow(c, hat, j)
    ensures c.buttonCount - c.hatCount * 4 <= j < c.buttonCount
  {
  }

  /** The hat index equal to the hat count passes the range check, and its
      window is the four bits just above the button count. */
  lemma HatIndexEqualToCountAccepted(c: Controller, value: HatValue, changed: set<nat>)
    requires c.hatCount >= 0 && HatDefined(c, c.hatCount as nat)
    ensures HandleHat(c, c.hatCount as nat, value, changed).ok
    ensures HatStart(c, c.hatCount as nat) == c.buttonCount
  {
  }

  /** When `hats * 4` overflows `int`, the window offset of line 119 has no
      defined value, so no in-range hat index is accepted by the model. */
  lemma HatOffsetOverflowExcluded(c: Controller, hat: nat)
    requires hat <= c.hatCount && !InInt32(c.hatCount * 4)
    ensures !HatDefined(c, hat)
  {
  }

  /** A hat event never touches the bits of another hat or of a physical
      button. */
  lemma HatEventIsolated(c: Controller, hat: nat, value: HatValue, changed: set<nat>, j: nat)
    requires HatDefined(c, hat) && j < Width
    requires (exists other: nat :: other != hat && InHatWindow(c, other, j))
      || j < c.buttonCount - c.hatCount * 4
    ensures HandleHat(c, hat, value, changed).state.event.buttonStates[j] ==
            c.event.buttonStates[j]
  {
  }

  // ---------------------------------------------------------------------------
  // Hat change sets

  /** The change set gains only indices inside the hat's own window. */
  lemma HatChangesInsideWindow(c: Controller, hat: nat, value: HatValue, changed: set<nat>, j: nat)
    requires HatDefined(c, hat)
    requires j in HandleHat(c, hat, value, changed).changed && j !in changed
    ensures InHatWindow(c, hat, j)
  {
  }

  /** A window bit is flagged exactly when it was flagged before or its old
      value differs from the direction table. */
  lemma HatFlagsExactlyFlips(c: Controller, hat: nat, value: HatValue, changed: set<nat>, d: nat)
    requires HatDefined(c, hat) && hat <= c.hatCount && d < 4
    ensures HatStart(c, hat) + d in HandleHat(c, hat, value, changed).changed <==>
      (HatStart(c, hat) + d in changed
       || c.event.buttonStates[HatStart(c, hat) + d] != StatusOf(value)[d])
  {
  }

  /** The indices of window bits where statuses `a` and `b` disagree. */
  function Disagreements(start: nat, a: HatStatus, b: HatStatus): set<nat>
  {
    (if a[0] != b[0] then {start} else {}) + (if a[1] != b[1] then {start + 1} else {})
    + (if a[2] != b[2] then {start + 2} else {}) + (if a[3] != b[3] then {start + 3} else {})
  }

  lemma FlippedIsDisagreements(m: ButtonMask, start: nat, status: HatStatus)
    requires start + 4 <= Width
    ensures Flipped(m, start, status, 0) == Disagreements(start, m[start..start + 4], status)
  {
  }

  /** Repeating a hat event leaves the state as it was after the first and
      flags nothing. */
  lemma HatRepeatFlagsNothing(c: Controller, hat: nat, value: HatValue, changed: set<nat>)
    requires HatDefined(c, hat)
    ensures HatDefined(HandleHat(c, hat, value, changed).state, hat)
    ensures HandleHat(HandleHat(c, hat, value, changed).state, hat, value, {}).changed == {}
    ensures HandleHat(HandleHat(c, hat, value, changed).state, hat, value, {}).state ==
            HandleHat(c, hat, value, changed).state
  {
  }

  /** Centered, then up, then centered again: each of the last two events
      flags only the up button, and the last one restores the centered state. */
  lemma HatUpAndBack(c: Controller, hat: nat, changed: set<nat>)
    requires HatDefined(c, hat) && hat <= c.hatCount
    ensures
      var c0 := HandleHat(c, hat, Centered, changed).state;
      var r1 := HandleHat(c0, hat, Up, {});
      var r2 := HandleHat(r1.state, hat, Centered, {});
      && r1.changed == {HatStart(c, hat) + UpBit}
      && r2.changed == {HatStart(c, hat) + UpBit}
      && r2.state == c0
  {
    var start := HatStart(c, hat);
    var c0 := HandleHat(c, hat, Centered, changed).state;
    assert c0.event.buttonStates[start..start + 4] == Released;
    var r1 := HandleHat(c0, hat, Up, {});
    assert r1.state.event.buttonStates[start..start + 4] == StatusOf(Up);
    FlippedIsDisagreements(c0.event.buttonStates, start, StatusOf(Up));
    FlippedIsDisagreements(r1.state.event.buttonStates, start, Released);
    var r2 := HandleHat(r1.state, hat, Centered, {});
    assert r2.state.event.buttonStates == c0.event.buttonStates;
  }

  /** From centered, a diagonal presses and flags both of its directions;
      repeating it flags nothing. */
  lemma HatDiagonalFromCentered(c: Controller, hat: nat, changed: set<nat>)
    requires HatDefined(c, hat) && hat <= c.hatCount
    ensures
      var c0 := HandleHat(c, hat, Centered, changed).state;
      var r1 := HandleHat(c0, hat, RightUp, {});
      && r1.changed == {HatStart(c, hat) + UpBit, HatStart(c, hat) + RightBit}
      && r1.state.event.buttonStates[HatStart(c, hat)..HatStart(c, hat) + 4] ==
         [true, true, false, false]
      && HandleHat(r1.state, hat, RightUp, {}).changed == {}
  {
    var start := HatStart(c, hat);
    var c0 := HandleHat(c, hat, Centered, changed).state;
    assert c0.event.buttonStates[start..start + 4] == Released;
    var r1 := HandleHat(c0, hat, RightUp, {});
    FlippedIsDisagreements(c0.event.buttonStates, start, StatusOf(RightUp));
    assert r1.changed == Disagreements(start, Released, StatusOf(RightUp));
    assert r1.state.event.buttonStates[start..start + 4] == StatusOf(RightUp);
    HatRepeatFlagsNothing(c0, hat, RightUp, {});
  }
}
