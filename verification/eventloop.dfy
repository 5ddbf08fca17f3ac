/**
  A sequence of events fed to the widget by the GTK main loop
  (gtk-kvm-client/ether-key-client.py:300-303). An exception raised inside
  a handler is printed by the Python bindings and the loop carries on, so
  a raising event leaves the state as it was and sends nothing.
 */
module EventLoop {
  import opened Results
  import opened KeyTables
  import opened Wire
  import opened Keyboard

  /** One event, together with the symbol order its handler would see. */
  datatype Input = Input(event: Event, order: SymbolOrder)

  /** The state after a run and the commands sent, in order. */
  datatype Trace = Trace(state: State, sent: seq<Command>)

  /** One event through its handler; a raised exception leaves no trace. */
  function Apply(s: State, i: Input): Transition
  {
    match Step(s, i.event, i.order)
    case Err(_) => Transition(s, None)
    case Ok(t) => t
  }

  function Emitted(o: Option<Command>): seq<Command> {
    match o
    case None => []
    case Some(c) => [c]
  }

  /** The GTK main loop feeding `inputs` to the widget in order: each
      handler writes at most one line, and every button event writes one. */
  function Run(s: State, inputs: seq<Input>): (r: Trace)
    ensures |r.sent| <= |inputs|
    ensures (forall i :: 0 <= i < |inputs| ==> inputs[i].event.ButtonPress? || inputs[i].event.ButtonRelease?)
      ==> |r.sent| == |inputs|
    decreases |inputs|
  {
    if |inputs| == 0 then Trace(s, [])
    else
      var t := Apply(s, inputs[0]);
      var rest := Run(t.state, inputs[1..]);
      Trace(rest.state, Emitted(t.sent) + rest.sent)
  }

  /** Whether an event flips the grab flag. */
  predicate Toggles(e: Event) {
    (e.KeyPress? && e.keycode == RightControl) || e.WindowMapped?
  }

  /** Whether a run holds an odd number of toggling events. */
  function OddToggles(inputs: seq<Input>): bool
    decreases |inputs|
  {
    if |inputs| == 0 then false
    else Toggles(inputs[0].event) != OddToggles(inputs[1..])
  }

  /** Whether an event presses (`Some(true)`) or releases (`Some(false)`)
      keycode `k`. */
  function Touch(e: Event, k: nat): Option<bool> {
    match e
    case KeyPress(kc, _) => if kc == k then Some(true) else None
    case KeyRelease(kc, _) => if kc == k then Some(false) else None
    case _ => None
  }

  /** The last press or release of `k` in a run, if there is one. */
  function LastTouch(inputs: seq<Input>, k: nat): Option<bool>
    decreases |inputs|
  {
    if |inputs| == 0 then None
    else
      var later := LastTouch(inputs[1..], k);
      if later.Some? then later else Touch(inputs[0].event, k)
  }

  /** Runs keep the held set to modifiers other than right control. */
  lemma {:induction false} RunValid(s: State, inputs: seq<Input>)
    requires Valid(s)
    ensures Valid(Run(s, inputs).state)
    decreases |inputs|
  {
    if |inputs| > 0 {
      RunValid(Apply(s, inputs[0]).state, inputs[1..]);
    }
  }

  /** The grab flag ends flipped exactly when right control was pressed, or
      the window mapped, an odd number of times in all. */
  lemma {:induction false} RunGrabParity(s: State, inputs: seq<Input>)
    ensures Run(s, inputs).state.grabbed == (s.grabbed != OddToggles(inputs))
    decreases |inputs|
  {
    if |inputs| > 0 {
      var t := Apply(s, inputs[0]);
      assert t.state.grabbed == (s.grabbed != Toggles(inputs[0].event));
      RunGrabParity(t.state, inputs[1..]);
    }
  }

  /** A modifier is held at the end of a run exactly when its last event was
      a press, or, if the run never touched it, when it was held at the
      start. A release of a modifier that is not held raises and changes
      nothing, so extra releases can never make a later press invisible. */
  lemma {:induction false} RunModifierHeld(s: State, inputs: seq<Input>, k: nat)
    requires IsModifier(k) && k != RightControl
    ensures k in Run(s, inputs).state.mods <==>
      match LastTouch(inputs, k)
      case None => k in s.mods
      case Some(pressed) => pressed
    decreases |inputs|
  {
    if |inputs| > 0 {
      var t := Apply(s, inputs[0]);
      RunModifierHeld(t.state, inputs[1..], k);
      assert k in t.state.mods <==>
        match Touch(inputs[0].event, k)
        case None => k in s.mods
        case Some(pressed) => pressed;
    }
  }

  /** From the state the widget starts in, the grab flag after a run is the
      parity of the toggling events, and a modifier is held exactly when
      the last event that touched it was a press. */
  lemma RunFromInitial(inputs: seq<Input>, k: nat)
    requires IsModifier(k) && k != RightControl
    ensures Valid(Run(Initial, inputs).state)
    ensures Run(Initial, inputs).state.grabbed == OddToggles(inputs)
    ensures k in Run(Initial, inputs).state.mods <==> LastTouch(inputs, k) == Some(true)
  {
    RunValid(Initial, inputs);
    RunGrabParity(Initial, inputs);
    RunModifierHeld(Initial, inputs, k);
  }

  /** A run of key events only writes `send` lines. */
  lemma {:induction false} RunKeysSendOnly(s: State, inputs: seq<Input>)
    requires forall i :: 0 <= i < |inputs| ==> inputs[i].event.KeyPress? || inputs[i].event.KeyRelease?
    ensures forall j :: 0 <= j < |Run(s, inputs).sent| ==> Run(s, inputs).sent[j].verb == Send
    decreases |inputs|
  {
    if |inputs| > 0 {
      var t := Apply(s, inputs[0]);
      RunKeysSendOnly(t.state, inputs[1..]);
    }
  }
}
