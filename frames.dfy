/** A button drawn once per frame over a sequence of frames: each frame's resolution reads
    the state the previous frame wrote back. */
module Frames {

  import opened ButtonStates
  import opened Widgets
  import opened Mouse
  import opened Button

  /** What the caller and the hover test supply for one frame. */
  datatype Input = Input(isOver: bool, mouse: MouseState)

  /** The store after the frames, the state resolved in each frame and how often the
      callback fired. */
  datatype Trace = Trace(store: map<nat, Widget>, states: seq<ButtonState>, fires: nat)

  /** Draws the button `id` once for each input, in order, stopping at the first error. */
  function Run(store: map<nat, Widget>, id: nat, inputs: seq<Input>): (r: Result<Trace>)
    ensures r.Ok? ==> |r.value.states| == |inputs| && r.value.fires <= |inputs|
    decreases |inputs|
  {
    if inputs == [] then Ok(Trace(store, [], 0))
    else
      match Resolve(store, id, inputs[0].isOver, inputs[0].mouse)
      case Err(e) => Err(e)
      case Ok(res) => Prepend(res.outcome, Run(res.store, id, inputs[1..]))
  }

  /** A run that starts with a frame resolved as `o` and continues as `rest`. */
  function Prepend(o: Outcome, rest: Result<Trace>): (r: Result<Trace>)
  {
    match rest
    case Err(e) => Err(e)
    case Ok(t) => Ok(Trace(t.store, [o.next] + t.states, (if o.fired then 1 else 0) + t.fires))
  }

  /** The number of frames in which the button is pressed while hovered. */
  function Presses(inputs: seq<Input>): (n: nat)
    decreases |inputs|
  {
    if inputs == [] then 0
    else (if inputs[0].isOver && inputs[0].mouse.left == Down then 1 else 0) + Presses(inputs[1..])
  }

  /** Only the first frame can fail, and only on a mismatch: once drawn, the id is a button. */
  lemma {:induction false} RunFailsOnlyOnMismatch(store: map<nat, Widget>, id: nat, inputs: seq<Input>)
    ensures Run(store, id, inputs).Err? <==> inputs != [] && id in store && !store[id].Button?
    decreases |inputs|
  {
    if inputs != [] {
      if id !in store || store[id].Button? {
        ResolveWritesBack(store, id, inputs[0].isOver, inputs[0].mouse);
        var res := Resolve(store, id, inputs[0].isOver, inputs[0].mouse).value;
        RunFailsOnlyOnMismatch(res.store, id, inputs[1..]);
      }
    }
  }

  /** The first frame of a run on a button id succeeds, and the run continues from the
      store it leaves. */
  lemma RunStep(store: map<nat, Widget>, id: nat, inputs: seq<Input>)
    requires inputs != []
    requires id !in store || store[id].Button?
    ensures Resolve(store, id, inputs[0].isOver, inputs[0].mouse).Ok?
    ensures var res := Resolve(store, id, inputs[0].isOver, inputs[0].mouse).value;
      Run(store, id, inputs) == Prepend(res.outcome, Run(res.store, id, inputs[1..]))
  {
  }

  /** In every run each frame's state is what that frame's input alone determines. */
  lemma {:induction false} RunStatesFollowInputs(store: map<nat, Widget>, id: nat, inputs: seq<Input>)
    requires id !in store || store[id].Button?
    ensures Run(store, id, inputs).Ok?
    ensures |Run(store, id, inputs).value.states| == |inputs|
    ensures forall i :: 0 <= i < |inputs| ==>
      Run(store, id, inputs).value.states[i] == CheckState(inputs[i].isOver, Normal, inputs[i].mouse)
    decreases |inputs|
  {
    if inputs != [] {
      var x := inputs[0];
      RunStep(store, id, inputs);
      ResolveClosedForm(store, id, x.isOver, x.mouse);
      var res := Resolve(store, id, x.isOver, x.mouse).value;
      CheckStateIgnoresPrevious(x.isOver, res.outcome.prev, Normal, x.mouse);
      RunStatesFollowInputs(res.store, id, inputs[1..]);
      var t := Run(res.store, id, inputs[1..]).value;
      var states := [res.outcome.next] + t.states;
      forall i | 0 <= i < |inputs|
        ensures states[i] == CheckState(inputs[i].isOver, Normal, inputs[i].mouse)
      {
        if i > 0 {
          assert inputs[1..][i - 1] == inputs[i];
        }
      }
    }
  }

  /** After a nonempty run the store holds the last frame's state for the id, and no other
      entry has changed. */
  lemma {:induction false} RunWritesBack(store: map<nat, Widget>, id: nat, inputs: seq<Input>)
    requires inputs != []
    requires id !in store || store[id].Button?
    ensures Run(store, id, inputs).Ok?
    ensures var t := Run(store, id, inputs).value;
      |t.states| == |inputs| && t.store == store[id := Widgets.Button(t.states[|inputs| - 1])]
    decreases |inputs|
  {
    var x := inputs[0];
    RunStep(store, id, inputs);
    ResolveClosedForm(store, id, x.isOver, x.mouse);
    var res := Resolve(store, id, x.isOver, x.mouse).value;
    if |inputs| == 1 {
      assert inputs[1..] == [];
      assert Run(res.store, id, inputs[1..]) == Ok(Trace(res.store, [], 0));
    } else {
      RunWritesBack(res.store, id, inputs[1..]);
      var t := Run(res.store, id, inputs[1..]).value;
      assert t.store == store[id := Widgets.Button(t.states[|t.states| - 1])];
    }
  }

  /** The callback fires at most once per hovered press, plus once for a press already held
      when the run starts. */
  lemma {:induction false} RunFiresAtMostOncePerPress(store: map<nat, Widget>, id: nat, inputs: seq<Input>)
    requires id !in store || store[id].Button?
    ensures Run(store, id, inputs).Ok?
    ensures Run(store, id, inputs).value.fires
         <= Presses(inputs) + (if StateOf(store, id).value == Clicked then 1 else 0)
    decreases |inputs|
  {
    if inputs != [] {
      var x := inputs[0];
      ResolveClosedForm(store, id, x.isOver, x.mouse);
      var res := Resolve(store, id, x.isOver, x.mouse).value;
      RunFiresAtMostOncePerPress(res.store, id, inputs[1..]);
      assert StateOf(res.store, id) == Ok(res.outcome.next);
      assert res.outcome.next == Clicked <==> x.isOver && x.mouse.left == Down;
    }
  }

  /** Hovering with the button up, starting from Highlighted, the button stays Highlighted
      for any number of frames, the store is left as it was, and the callback never fires. */
  lemma {:induction false} RunHoverStable(store: map<nat, Widget>, id: nat, inputs: seq<Input>)
    requires id in store && store[id] == Widgets.Button(Highlighted)
    requires forall i :: 0 <= i < |inputs| ==> inputs[i] == Input(true, MouseState(Up))
    ensures Run(store, id, inputs).Ok?
    ensures Run(store, id, inputs).value.fires == 0
    ensures Run(store, id, inputs).value.store == store
    ensures |Run(store, id, inputs).value.states| == |inputs|
    ensures forall i :: 0 <= i < |inputs| ==> Run(store, id, inputs).value.states[i] == Highlighted
    decreases |inputs|
  {
    if inputs != [] {
      ResolveStableTwice(store, id);
      var res := Resolve(store, id, true, MouseState(Up)).value;
      assert res.store == store;
      forall i | 0 <= i < |inputs[1..]| ensures inputs[1..][i] == Input(true, MouseState(Up)) {
        assert inputs[1..][i] == inputs[i + 1];
      }
      RunHoverStable(res.store, id, inputs[1..]);
      var t := Run(res.store, id, inputs[1..]).value;
      forall i | 0 <= i < |inputs| ensures ([res.outcome.next] + t.states)[i] == Highlighted {
      }
    }
  }
}
