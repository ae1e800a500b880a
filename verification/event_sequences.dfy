/**
 Runs of events fed to one translator, as the SDL event loop does. For
 buttons: each bit ends up as the last accepted event for that button left
 it. For a hat: its window ends up holding the status of the last position,
 and the change set gains only bits of that window.
 */
module EventSequences {
  import opened SdlController

  datatype Option<T> = None | Some(value: T)

  /** A button event: the button index and whether it was pressed. */
  datatype ButtonEvent = ButtonEvent(button: nat, pressed: bool)

  predicate AllButtonsDefined(c: Controller, es: seq<ButtonEvent>)
  {
    forall i :: 0 <= i < |es| ==> ButtonDefined(c, es[i].button)
  }

  /** Feed the button events to the translator in order. */
  function ApplyButtons(c: Controller, es: seq<ButtonEvent>): (r: Controller)
    requires AllButtonsDefined(c, es)
    ensures SameExceptButtons(c, r)
    decreases |es|
  {
    if |es| == 0 then
      c
    else
      ApplyButtons(HandleButton(c, es[0].button, es[0].pressed).state, es[1..])
  }

  /** The pressed flag of the last event in `es` that addresses `b` and
      passes a range check against `buttonCount`, if there is one. */
  function LastAccepted(buttonCount: int, es: seq<ButtonEvent>, b: nat): Option<bool>
    decreases |es|
  {
    if |es| == 0 then
      None
    else
      match LastAccepted(buttonCount, es[1..], b)
      case Some(p) => Some(p)
      case None => if es[0].button == b && b <= buttonCount then Some(es[0].pressed) else None
  }

  /** Every bit of the word ends as the last accepted event for it left
      it, or as it was when no accepted event addressed it. */
  lemma {:induction false} ButtonLastEventWins(c: Controller, es: seq<ButtonEvent>, b: nat)
    requires AllButtonsDefined(c, es) && b < Width
    ensures ApplyButtons(c, es).event.buttonStates[b] ==
      match LastAccepted(c.buttonCount, es, b)
      case Some(p) => p
      case None => c.event.buttonStates[b]
    decreases |es|
  {
    if |es| > 0 {
      var c' := HandleButton(c, es[0].button, es[0].pressed).state;
      ButtonLastEventWins(c', es[1..], b);
    }
  }

  /** Result of a run of hat events: the final state and change set. */
  datatype HatRun = HatRun(state: Controller, changed: set<nat>)

  /** Feed a run of positions of hat `hat` to the translator in order. */
  function ApplyHat(c: Controller, hat: nat, vs: seq<HatValue>, changed: set<nat>): (r: HatRun)
    requires HatDefined(c, hat)
    ensures SameExceptButtons(c, r.state)
    ensures changed <= r.changed
    decreases |vs|
  {
    if |vs| == 0 then
      HatRun(c, changed)
    else
      var o := HandleHat(c, hat, vs[0], changed);
      ApplyHat(o.state, hat, vs[1..], o.changed)
  }

  /** After a non-empty run on an accepted hat, its window holds the status
      of the last position, and every other bit is as it was. */
  lemma {:induction false} HatRunEndsAtLast(c: Controller, hat: nat, vs: seq<HatValue>, changed: set<nat>, j: nat)
    requires HatDefined(c, hat) && hat <= c.hatCount && |vs| > 0 && j < Width
    ensures var m := ApplyHat(c, hat, vs, changed).state.event.buttonStates;
      m[j] == if InHatWindow(c, hat, j) then StatusOf(vs[|vs| - 1])[j - HatStart(c, hat)]
              else c.event.buttonStates[j]
    decreases |vs|
  {
    var o := HandleHat(c, hat, vs[0], changed);
    if |vs| > 1 {
      HatRunEndsAtLast(o.state, hat, vs[1..], o.changed, j);
      assert vs[1..][|vs[1..]| - 1] == vs[|vs| - 1];
    } else {
      assert o.state.event.buttonStates[HatStart(c, hat) .. HatStart(c, hat) + 4] == StatusOf(vs[0]);
    }
  }

  /** A run of hat events flags only bits of that hat's window. */
  lemma {:induction false} HatRunFlagsOnlyWindow(c: Controller, hat: nat, vs: seq<HatValue>, changed: set<nat>, j: nat)
    requires HatDefined(c, hat)
    requires j in ApplyHat(c, hat, vs, changed).changed && j !in changed
    ensures InHatWindow(c, hat, j)
    decreases |vs|
  {
    if |vs| > 0 {
      var o := HandleHat(c, hat, vs[0], changed);
      if j !in o.changed {
        HatRunFlagsOnlyWindow(o.state, hat, vs[1..], o.changed, j);
      }
    }
  }
}
