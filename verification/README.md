# SDLController event translator, modelled in Dafny

SuperTuxKart reads game pads through SDL and hands them to its input-mapping
layer as Irrlicht joystick events. One `SDLController` object per device keeps
one such event up to date: the axis values, the 32-bit `ButtonStates` word, and
a private buffer of previous axis values. Three inline handlers update it:

- `handleAxis` stores a signed 16-bit axis value in the current and previous
  axis slots;
- `handleButton` sets or clears one bit of the button word;
- `handleHat` turns a hat (d-pad) position into four synthesized buttons
  (up, right, down, left). These sit in a four-bit window placed after the
  physical buttons. The handler also flags in a caller-supplied bitset every
  synthesized button that flipped.

The model (`sdl_controller.dfy`, module `SdlController`) is purely
functional. The object's state is the immutable datatype `Controller`.
Each handler is a function from the old state and one event to a success flag
and the new state; the hat handler also returns the updated change set.
`ButtonMask` represents the button word as 32 booleans, where entry `k` is
bit `k`. The module `ButtonWord` (`button_word.dfy`) gives the word's numeric
value. It proves that entry `k` is bit `k` of that number, which is what
`IsButtonPressed` tests with `ButtonStates & (1 << k)`. It also proves that
writing entry `k` changes bit `k` of the number and no other bit, which is
what `|= 1 << k` and `&= ~(1 << k)` do. Numerically, that is a change of
plus or minus `2^k` exactly when the entry flips. `ControllerProperties`
(`controller_properties.dfy`) holds the properties that relate several events,
or one event to an independent description: the boundary behaviour of the range
checks, idempotence and undo, the compass geometry of the hat table, the
layout of hat windows, and the change sets of short hat event sequences.
`EventSequences` (`event_sequences.dfy`) feeds whole runs of events to one
translator.

The range checks follow the code. All three handlers reject an index only
when it is strictly greater than the count (`>`, lines 69, 80 and 138). A
count of n names slots 0..n-1, so the index n that passes the check
addresses one slot past the last. The model keeps this, and the boundary
lemmas state it.

## Model

| member | source | states |
|---|---|---|
| SdlController.HandleAxis | src/input/sdl_controller.hpp:66-74 | an axis index above the axis count is refused and nothing changes; otherwise the axis slot and the previous-axis slot both hold the value, and every other slot, the button word and the counts stay as they were |
| SdlController.HandleButton | src/input/sdl_controller.hpp:136-152 | a button index above the button count is refused with the state unchanged; otherwise bit `button` becomes pressed or released and every other bit, the axes and the counts stay as they were |
| SdlController.WriteHatButtons | src/input/sdl_controller.hpp:120-132 | the write loop leaves window positions from `i` on equal to the direction table and every other bit as it was |
| SdlController.WriteHatButtonsChanged | src/input/sdl_controller.hpp:122-131 | because each bit is read before it is written, the loop adds to the change set exactly the window bits whose old value differs from the new status |
| SdlController.HandleHat | src/input/sdl_controller.hpp:76-134 | a hat index above the hat count is refused with state and change set unchanged; otherwise the four-bit window starting at `HatStart` (`buttons - hats*4 + hat*4`, line 119) holds the direction table `StatusOf`'s status for the value (lines 84-117), every bit outside it is unchanged, the change set only grows, and it gains exactly the flipped window bits |
| ButtonWord.WordFits | src/input/sdl_controller.hpp:127-129 | the numeric button word always fits in an unsigned 32-bit value |
| ButtonWord.WordBit | src/input/sdl_controller.hpp:123-124 | entry `k` is bit `k` of the numeric word, so reading the entry is the bit test `ButtonStates & (1 << k)` behind `IsButtonPressed` |
| ButtonWord.UpdateBits | src/input/sdl_controller.hpp:125-129 | setting or clearing entry `k` makes bit `k` of the number the new value and leaves every other bit as it was, as the or-assignment at line 127 and the and-not assignment at line 129 do |
| ButtonWord.PressIsOr | src/input/sdl_controller.hpp:146-148 | setting entry `k` adds `2^k` to the word when bit `k` was clear and leaves it unchanged otherwise, as or-ing in `1 << k` does |
| ButtonWord.ReleaseIsAndNot | src/input/sdl_controller.hpp:149-150 | clearing entry `k` subtracts `2^k` when bit `k` was set and leaves the word unchanged otherwise, as `&= ~(1 << k)` does |
| ButtonWord.HandleButtonWord | src/input/sdl_controller.hpp:138-151 | the button handler's effect on the numeric word: unchanged when refused; plus `2^k` on a press of a released button; minus `2^k` on a release of a pressed one |
| ControllerProperties.AxisIndexEqualToCountAccepted | src/input/sdl_controller.hpp:69 | an axis index equal to the axis count passes the `>` check and is written |
| ControllerProperties.AxisLastWriteWins | src/input/sdl_controller.hpp:71-72 | a second event on the same axis gives the same result as if only the second had arrived |
| ControllerProperties.AxisEventsCommute | src/input/sdl_controller.hpp:71-72 | events on different axes can be applied in either order |
| ControllerProperties.ButtonIndexEqualToCountAccepted | src/input/sdl_controller.hpp:138 | a button index equal to the button count passes the `>` check and is written |
| ControllerProperties.ButtonIdempotent | src/input/sdl_controller.hpp:145-151 | applying the same button event twice gives the result of applying it once |
| ControllerProperties.ButtonReleaseUndoesPress | src/input/sdl_controller.hpp:145-151 | releasing a released button right after pressing it restores the original state |
| ControllerProperties.AxisAndButtonCommute | src/input/sdl_controller.hpp:60 | axis and button events write disjoint parts of the `getEvent` snapshot, so their order does not change it |
| ControllerProperties.StatusFollowsOffset | src/input/sdl_controller.hpp:84-117 | the table presses up, right, down or left exactly when the position's compass offset points that way |
| ControllerProperties.DirectionTable | src/input/sdl_controller.hpp:84-117 | centered and unrecognised values press nothing; each straight position presses only its own button; each diagonal presses exactly its two neighbours |
| ControllerProperties.NoOppositeDirections | src/input/sdl_controller.hpp:84-117 | no hat position presses both up and down, or both left and right |
| ControllerProperties.HatWindowsDisjoint | src/input/sdl_controller.hpp:119 | windows of distinct hats share no bit |
| ControllerProperties.HatWindowInHatRange | src/input/sdl_controller.hpp:119 | the window of every hat below the hat count lies at or above `buttons - hats*4` and below the button count |
| ControllerProperties.HatIndexEqualToCountAccepted | src/input/sdl_controller.hpp:80 | a hat index equal to the hat count passes the `>` check; its window starts at the button count |
| ControllerProperties.HatOffsetOverflowExcluded | src/input/sdl_controller.hpp:119 | when the 32-bit `int` product `hats * 4` overflows, no hat index that passes the range check is accepted by the model, because the offset has no defined value |
| ControllerProperties.HatEventIsolated | src/input/sdl_controller.hpp:119-132 | a hat event leaves the bits of every other hat and of every physical button unchanged |
| ControllerProperties.HatChangesInsideWindow | src/input/sdl_controller.hpp:130-131 | every index a hat event adds to the change set lies in that hat's window |
| ControllerProperties.HatFlagsExactlyFlips | src/input/sdl_controller.hpp:122-131 | window bit `i` is flagged after the event exactly when it was flagged before or its old value differs from `status[i]` |
| ControllerProperties.FlippedIsDisagreements | src/input/sdl_controller.hpp:123-131 | the flipped bits of a window are the positions where the old window and the new status disagree |
| ControllerProperties.HatRepeatFlagsNothing | src/input/sdl_controller.hpp:118-133 | repeating a hat event flags nothing and leaves the state as it was after the first |
| ControllerProperties.HatUpAndBack | src/input/sdl_controller.hpp:118-133 | centered, then up, then centered: each of the last two events flags only the up button, and the last one restores the centered state |
| ControllerProperties.HatDiagonalFromCentered | src/input/sdl_controller.hpp:89-92 | from centered, right-up presses and flags both up and right and nothing else; repeating it flags nothing |
| EventSequences.ApplyButtons | src/input/sdl_controller.hpp:136-152 | feeding a run of button events changes nothing but the button word |
| EventSequences.ButtonLastEventWins | src/input/sdl_controller.hpp:138-151 | after a run of button events, every bit holds the pressed flag of the last accepted event for that button, or its old value when none addressed it |
| EventSequences.ApplyHat | src/input/sdl_controller.hpp:76-134 | feeding a run of hat positions changes nothing but the button word, and the change set only grows |
| EventSequences.HatRunEndsAtLast | src/input/sdl_controller.hpp:119-129 | after a non-empty run on an accepted hat, its window holds the status of the last position and every other bit is as it was |
| EventSequences.HatRunFlagsOnlyWindow | src/input/sdl_controller.hpp:130-131 | a run of hat events adds to the change set only bits of that hat's window |

## Left out

- The constructor and destructor (src/input/sdl_controller.hpp:56-58) are left out. Only their declarations are in the header; their bodies are not. The model takes the axis, button and hat counts and the axis buffer length as given fields of `Controller`. It also assumes, as the hat window offset at line 119 implies, that `buttonCount` already includes four synthesized buttons per hat after the physical ones.
- `getInstanceID` and `getGameController` (lines 62, 154) are left out. They return the joystick's instance id and the game-controller handle, which the model has no counterpart for.
- `getEvent` (line 60) is modelled as `SdlController.GetEvent`, which returns the event part of the state. It has no contract of its own; `AxisAndButtonCommute` is stated through it.
- `handleAxisInputSense` (line 64) is left out. Only its declaration is in the header, so its policy is unknown.
- `handleDirectScanCode` (lines 51-53, 140-142) is left out. It is an Android-only fallback whose body is not part of this model. The refused branch of `HandleButton` simply returns false.
- The numeric `SDL_HAT_*` constants are not modelled. A hat value is the datatype `HatValue`, and `Unrecognised` stands for every value the switch reaches through `default`.
- The sentinel `SDL_PRESSED` is not modelled. The button state arrives as a `bool`.
- `NUMBER_OF_AXES` is not defined in the header. The capacity of the axis buffers is therefore their length in the state, with both buffers the same length (`Wellformed`).
- Undefined behaviour is excluded by preconditions rather than given invented results:
  - `1 << id` for a shift of 32 or more: `ButtonDefined` and `HatDefined` require accepted indices to be below 32;
  - signed overflow in the window offset at line 119: the counts are 32-bit `int` (lines 40-44, `Int32` in the model), and `HatDefined` requires `hats * 4` and `buttons - hats * 4` to fit in an `int`;
  - a negative hat window start when the button count is smaller than four per hat: `HatDefined` requires the start to be at least 0;
  - writes past the axis buffers: `AxisDefined`.
- `1 << 31` is evaluated on a signed `int` in the source. The model treats it as bit 31 of the unsigned word, which is what every mainstream compiler produces.
- Event indices are unbounded naturals. SDL delivers them as 8-bit unsigned values, and nothing in the handlers depends on that bound.
- SDL's event queue, the device handles and the game-pad mapping layer that consumes the snapshot are outside this model.
