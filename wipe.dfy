/**
 * The "clear clipboard" button: a two-step confirmation before `cliphist wipe`.
 *
 * The first click turns the button into a "yes" button with the `confirming`
 * style and arms a one-shot reset timer of 3 seconds (a comment beside the
 * call says 4; the call passes 3); the timer turns it back.
 * A click while confirming runs `cliphist wipe` and exits the process with
 * status 0, whatever the wipe did. The timer is modelled as a discrete
 * `TimerFire` event; the exit as a terminal state in which no event has any effect.
 */
module WipeConfirm {

  const IdleLabel: string := "clear clipboard"
  const ConfirmLabel: string := "yes"
  const ButtonClass: string := "wipe-button"
  const ConfirmingClass: string := "confirming"

  datatype Event = Click | TimerFire

  /**
   * The observable state: the shared `confirming` flag, the text and CSS
   * classes of the button, the number of reset timers still pending, the number
   * of `cliphist wipe` commands issued, and whether the process has exited.
   */
  datatype WipeState = WipeState(
    confirming: bool,
    text: string,
    classes: set<string>,
    pendingResets: nat,
    wipes: nat,
    exited: bool)

  const Initial: WipeState := WipeState(false, IdleLabel, {ButtonClass}, 0, 0, false)

  /** One event. */
  function Step(s: WipeState, e: Event): WipeState
  {
    if s.exited then s
    else match e
      case Click =>
        if s.confirming then s.(wipes := s.wipes + 1, exited := true)
        else s.(confirming := true, text := ConfirmLabel,
                classes := s.classes + {ConfirmingClass},
                pendingResets := s.pendingResets + 1)
      case TimerFire =>
        if s.pendingResets == 0 then s
        else s.(text := IdleLabel, classes := s.classes - {ConfirmingClass},
                confirming := false, pendingResets := s.pendingResets - 1)
  }

  /** A sequence of events, in order. */
  function Replay(s: WipeState, es: seq<Event>): WipeState
  {
    if es == [] then s else Step(Replay(s, es[..|es| - 1]), es[|es| - 1])
  }

  /**
   * The invariant of the button: `confirming` holds exactly when one reset
   * timer is pending (and never more than one is), the text and the
   * `confirming` class follow the flag, and a wipe has been issued exactly when
   * the process has exited.
   */
  ghost predicate Inv(s: WipeState)
  {
    && (s.confirming <==> s.pendingResets == 1)
    && s.pendingResets <= 1
    && s.text == (if s.confirming then ConfirmLabel else IdleLabel)
    && (ConfirmingClass in s.classes <==> s.confirming)
    && ButtonClass in s.classes
    && s.wipes == (if s.exited then 1 else 0)
  }

  /** Every event keeps the invariant. */
  lemma StepKeepsInv(s: WipeState, e: Event)
    requires Inv(s)
    ensures Inv(Step(s, e))
  {
  }

  /** Every sequence of events from a valid state ends in a valid state. */
  lemma {:induction false} ReplayKeepsInv(s: WipeState, es: seq<Event>)
    requires Inv(s)
    ensures Inv(Replay(s, es))
  {
    if es != [] {
      ReplayKeepsInv(s, es[..|es| - 1]);
      StepKeepsInv(Replay(s, es[..|es| - 1]), es[|es| - 1]);
    }
  }

  /** However the events arrive, `cliphist wipe` is issued at most once. */
  lemma AtMostOneWipe(es: seq<Event>)
    ensures Replay(Initial, es).wipes <= 1
    ensures Replay(Initial, es).confirming <==> Replay(Initial, es).pendingResets == 1
  {
    ReplayKeepsInv(Initial, es);
  }

  /**
   * A click while not confirming never wipes: it sets the flag, shows "yes",
   * adds the `confirming` class and schedules exactly one more reset.
   */
  lemma ClickWhileIdle(s: WipeState)
    requires !s.exited && !s.confirming
    ensures Step(s, Click).wipes == s.wipes && !Step(s, Click).exited
    ensures Step(s, Click).confirming && Step(s, Click).text == ConfirmLabel
    ensures ConfirmingClass in Step(s, Click).classes
    ensures Step(s, Click).pendingResets == s.pendingResets + 1
  {
  }

  /** A click while confirming issues the wipe and exits, whatever the wipe's outcome. */
  lemma ClickWhileConfirming(s: WipeState)
    requires !s.exited && s.confirming
    ensures Step(s, Click).wipes == s.wipes + 1 && Step(s, Click).exited
  {
  }

  /** A firing timer restores the idle look and is not re-armed. */
  lemma TimerRestoresIdle(s: WipeState)
    requires Inv(s) && !s.exited && s.pendingResets > 0
    ensures Step(s, TimerFire) == s.(confirming := false, text := IdleLabel,
                                      classes := s.classes - {ConfirmingClass},
                                      pendingResets := 0)
    ensures Inv(Step(s, TimerFire))
  {
  }

  /** After exit no event changes anything. */
  lemma {:induction false} ExitIsTerminal(s: WipeState, es: seq<Event>)
    requires s.exited
    ensures Replay(s, es) == s
  {
    if es != [] {
      ExitIsTerminal(s, es[..|es| - 1]);
    }
  }

  /** A click, then the timer expiring, returns the button to its initial state. */
  lemma ClickThenExpiry()
    ensures Replay(Initial, [Click, TimerFire]) == Initial
  {
    assert [Click, TimerFire][..1] == [Click];
    assert [Click][..0] == [];
    var armed := Step(Initial, Click);
    assert Replay(Initial, [Click]) == armed;
    assert armed.classes - {ConfirmingClass} == Initial.classes;
    assert Step(armed, TimerFire) == Initial;
  }

  /** `n` clicks in a row. */
  function Clicks(n: nat): (es: seq<Event>)
    ensures |es| == n
    ensures forall i :: 0 <= i < n ==> es[i] == Click
  {
    if n == 0 then [] else Clicks(n - 1) + [Click]
  }

  /** Two or more clicks before the timer fires (ten rapid clicks, say) issue exactly one wipe. */
  lemma {:induction false} RapidClicksWipeOnce(n: nat)
    requires n >= 2
    ensures Replay(Initial, Clicks(n)).exited
    ensures Replay(Initial, Clicks(n)).wipes == 1
  {
    if n == 2 {
      assert Clicks(2)[..1] == Clicks(1);
      assert Clicks(1)[..0] == [];
      assert Replay(Initial, Clicks(1)) == Step(Initial, Click);
    } else {
      RapidClicksWipeOnce(n - 1);
      assert Clicks(n)[..n - 1] == Clicks(n - 1);
    }
  }

  /** Some click directly follows another click. */
  ghost predicate HasDoubleClick(es: seq<Event>)
  {
    exists i :: 0 <= i < |es| - 1 && es[i] == Click && es[i + 1] == Click
  }

  /**
   * Before exit, the button is confirming exactly when the latest event was a
   * click: every timer event leaves it idle.
   */
  lemma {:induction false} ConfirmingIffLastClick(es: seq<Event>)
    requires !Replay(Initial, es).exited
    ensures Inv(Replay(Initial, es))
    ensures Replay(Initial, es).confirming <==> (es != [] && es[|es| - 1] == Click)
  {
    ReplayKeepsInv(Initial, es);
    if es != [] {
      ConfirmingIffLastClick(es[..|es| - 1]);
    }
  }

  /**
   * The process wipes and exits exactly when some click came while the
   * previous event was also a click, that is, a second click before the reset
   * timer fired.
   */
  lemma {:induction false} ExitIffDoubleClick(es: seq<Event>)
    ensures Replay(Initial, es).exited <==> HasDoubleClick(es)
  {
    if es != [] {
      var prev := es[..|es| - 1];
      var last := es[|es| - 1];
      ExitIffDoubleClick(prev);
      if HasDoubleClick(prev) {
        var i :| 0 <= i < |prev| - 1 && prev[i] == Click && prev[i + 1] == Click;
        assert es[i] == Click && es[i + 1] == Click;
        assert Replay(Initial, prev).exited;
      } else if Replay(Initial, prev).exited {
        assert false;
      } else {
        ConfirmingIffLastClick(prev);
        if HasDoubleClick(es) {
          var i :| 0 <= i < |es| - 1 && es[i] == Click && es[i + 1] == Click;
          if i < |es| - 2 {
            assert false;
          }
        }
        if Replay(Initial, es).exited {
          assert last == Click && prev != [] && prev[|prev| - 1] == Click;
          assert es[|es| - 2] == Click;
        }
      }
    }
  }

  /** The wipe button widget, with the shared `confirming` cell as a field. */
  class WipeButton {
    var confirming: bool
    var text: string
    var classes: set<string>
    var pendingResets: nat
    var wipes: nat
    var exited: bool

    function State(): WipeState
      reads this
    {
      WipeState(confirming, text, classes, pendingResets, wipes, exited)
    }

    ghost predicate Valid()
      reads this
    {
      Inv(State())
    }

    /** `Button::with_label("clear clipboard")` with the `wipe-button` class, and `confirming` false. */
    constructor ()
      ensures State() == Initial && Valid()
    {
      confirming := false;
      text := IdleLabel;
      classes := {ButtonClass};
      pendingResets := 0;
      wipes := 0;
      exited := false;
    }

    /** The `connect_clicked` handler. No handler runs once the process has exited. */
    method OnClick()
      requires Valid() && !exited
      modifies this
      ensures State() == Step(old(State()), Click) && Valid()
    {
      if confirming {
        wipes := wipes + 1;
        exited := true;
      } else {
        confirming := true;
        text := ConfirmLabel;
        classes := classes + {ConfirmingClass};
        pendingResets := pendingResets + 1;
      }
    }

    /** The one-shot timer callback: it only runs while it is pending, and returns `Break`. */
    method OnTimer()
      requires Valid() && !exited && pendingResets > 0
      modifies this
      ensures State() == Step(old(State()), TimerFire) && Valid()
      ensures !confirming && text == IdleLabel && ConfirmingClass !in classes && pendingResets == 0
    {
      text := IdleLabel;
      classes := classes - {ConfirmingClass};
      confirming := false;
      pendingResets := pendingResets - 1;
    }
  }
}
