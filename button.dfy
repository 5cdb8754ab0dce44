/** The button widget's per-frame resolution: fetch the previous state from the UI context,
    compute the new one from hover and the pointer, write it back, and report whether the
    activation callback fires. Rendering is left out; the rectangle state it would be given
    is part of the outcome. */
module Button {

  import opened ButtonStates
  import opened Widgets
  import opened Mouse
  import opened Context
  import R = Rectangle

  /** The one error kind: the id is bound to another widget kind's state. */
  datatype Error = WidgetKindMismatch(id: nat, found: Widget)

  datatype Result<T> = Ok(value: T) | Err(error: Error)

  /** What one frame of the button produces besides the store update: the state read back,
      the newly resolved state, the rectangle state it is drawn with, and whether the
      callback was invoked. */
  datatype Outcome = Outcome(prev: ButtonState, next: ButtonState, rect: R.RectangleState, fired: bool)

  datatype Resolution = Resolution(store: map<nat, Widget>, outcome: Outcome)

  /** The widget a new id is bound to: a button in its Normal state. */
  function Default(): (w: Widget)
    ensures w.Button? && w.state == Normal
  {
    Widgets.Button(Normal)
  }

  /** The result of get_state on `store`. It succeeds exactly when the id is new or bound to
      a button; a new id (which get-or-insert binds to Default()) reads as Normal, a bound
      button as its stored state, and anything else is reported with the widget found. */
  function StateOf(store: map<nat, Widget>, id: nat): (r: Result<ButtonState>)
    ensures r.Ok? <==> id !in store || store[id].Button?
    ensures id !in store ==> r == Ok(Normal)
    ensures id in store && store[id].Button? ==> r == Ok(store[id].state)
    ensures r.Err? ==> r.error == WidgetKindMismatch(id, store[id])
  {
    match GetOrInsert(store, id, Default())[id]
    case Button(s) => Ok(s)
    case Other(_) => Err(WidgetKindMismatch(id, store[id]))
  }

  /** The store after set_state on `store`, or the mismatch error. It fails exactly when the
      id is bound to another widget kind; otherwise it binds the id to the new state, leaves
      every other entry alone, and get_state then reads the new state back. */
  function StoreState(store: map<nat, Widget>, id: nat, s: ButtonState): (r: Result<map<nat, Widget>>)
    ensures r.Err? <==> id in store && !store[id].Button?
    ensures r.Err? ==> r.error == WidgetKindMismatch(id, store[id])
    ensures r.Ok? ==> r.value == store[id := Widgets.Button(s)]
    ensures r.Ok? ==> StateOf(r.value, id) == Ok(s)
  {
    var m := GetOrInsert(store, id, Default());
    match m[id]
    case Button(_) => Ok(m[id := Widgets.Button(s)])
    case Other(_) => Err(WidgetKindMismatch(id, m[id]))
  }

  /** The button's new state this frame: Clicked exactly when hovered with the button down,
      Highlighted exactly when hovered with it up, Normal exactly when not hovered. */
  function CheckState(isOver: bool, prev: ButtonState, mouse: MouseState): (r: ButtonState)
    ensures r == Clicked <==> isOver && mouse.left == Down
    ensures r == Highlighted <==> isOver && mouse.left == Up
    ensures r == Normal <==> !isOver
  {
    match (isOver, prev, mouse)
    case (true, _, MouseState(Down)) => Clicked
    case (true, _, MouseState(Up)) => Highlighted
    case _ => Normal
  }

  /** Whether the (hover, previous state, new state) triple is the activation edge: of the
      2 x 3 x 3 triples, exactly (true, Clicked, Highlighted). */
  function Activates(isOver: bool, prev: ButtonState, next: ButtonState): (fired: bool)
    ensures fired <==> isOver && prev == Clicked && next == Highlighted
  {
    match (isOver, prev, next)
    case (true, Clicked, Highlighted) => true
    case _ => false
  }

  /** One call of draw on a store, as a value: fetch, compute, write back, fire. It fails
      exactly on a mismatch, reporting the widget found. Otherwise the previous state is the
      one get_state reads from the store, the new state is what CheckState computes from it,
      the store is the old one with only the id rebound to the new state, the rectangle is
      drawn in the new state, and the callback fires exactly on the activation edge. */
  function Resolve(store: map<nat, Widget>, id: nat, isOver: bool, mouse: MouseState): (r: Result<Resolution>)
    ensures r.Err? <==> id in store && !store[id].Button?
    ensures r.Err? ==> r.error == WidgetKindMismatch(id, store[id])
    ensures r.Ok? ==> r.value.outcome.prev == StateOf(store, id).value
    ensures r.Ok? ==> r.value.outcome.next == CheckState(isOver, r.value.outcome.prev, mouse)
    ensures r.Ok? ==> r.value.store == store[id := Widgets.Button(r.value.outcome.next)]
    ensures r.Ok? ==> r.value.outcome.rect == AsRectangleState(r.value.outcome.next)
    ensures r.Ok? ==> r.value.outcome.fired == Activates(isOver, r.value.outcome.prev, r.value.outcome.next)
  {
    match StateOf(store, id)
    case Err(e) => Err(e)
    case Ok(prev) =>
      var next := CheckState(isOver, prev, mouse);
      var fetched := GetOrInsert(store, id, Default());
      match StoreState(fetched, id, next)
      case Err(e) => Err(e)
      case Ok(m) =>
        assert m == store[id := Widgets.Button(next)] by {
          assert m == fetched[id := Widgets.Button(next)];
          assert fetched[id := Widgets.Button(next)] == store[id := Widgets.Button(next)];
        }
        Ok(Resolution(m, Outcome(prev, next, AsRectangleState(next), Activates(isOver, prev, next))))
  }

  // ---------------------------------------------------------------------------------------
  // The operations on the UI context

  method GetWidget(uic: UIContext, id: nat) returns (w: Widget)
    modifies uic
    ensures uic.widgets == GetOrInsert(old(uic.widgets), id, Default())
    ensures w == uic.widgets[id]
  {
    w := uic.GetWidget(id, Default());
  }

  method GetState(uic: UIContext, id: nat) returns (r: Result<ButtonState>)
    modifies uic
    ensures r == StateOf(old(uic.widgets), id)
    ensures uic.widgets == GetOrInsert(old(uic.widgets), id, Default())
    ensures r.Err? ==> uic.widgets == old(uic.widgets)
  {
    var w := GetWidget(uic, id);
    match w
    case Button(state) => r := Ok(state);
    case Other(_) => r := Err(WidgetKindMismatch(id, w));
  }

  method SetState(uic: UIContext, id: nat, newState: ButtonState) returns (r: Result<()>)
    modifies uic
    ensures r.Ok? <==> StoreState(old(uic.widgets), id, newState).Ok?
    ensures r.Ok? ==> uic.widgets == StoreState(old(uic.widgets), id, newState).value
    ensures r.Err? ==> r.error == StoreState(old(uic.widgets), id, newState).error
    ensures r.Err? ==> uic.widgets == old(uic.widgets)
  {
    var w := GetWidget(uic, id);
    match w
    case Button(_) =>
      uic.Overwrite(id, Widgets.Button(newState));
      r := Ok(());
    case Other(_) =>
      r := Err(WidgetKindMismatch(id, w));
  }

  /** draw without the rendering: returns what the frame resolved, or the mismatch error
      raised before anything is written. */
  method Draw(uic: UIContext, id: nat, isOver: bool, mouse: MouseState) returns (r: Result<Outcome>)
    modifies uic
    ensures r.Ok? <==> Resolve(old(uic.widgets), id, isOver, mouse).Ok?
    ensures r.Ok? ==> r.value == Resolve(old(uic.widgets), id, isOver, mouse).value.outcome
    ensures r.Ok? ==> uic.widgets == Resolve(old(uic.widgets), id, isOver, mouse).value.store
    ensures r.Err? ==> r.error == Resolve(old(uic.widgets), id, isOver, mouse).error
    ensures r.Err? ==> uic.widgets == old(uic.widgets)
  {
    var got := GetState(uic, id);
    if got.Err? {
      return Err(got.error);
    }
    var state := got.value;
    var newState := CheckState(isOver, state, mouse);
    var rectState := AsRectangleState(newState);
    var written := SetState(uic, id, newState);
    // get_state has bound the id to a button, so set_state's mismatch cannot happen here
    assert written.Ok?;
    var fired := false;
    if Activates(isOver, state, newState) {
      fired := true;
    }
    r := Ok(Outcome(state, newState, rectState, fired));
  }

  // ---------------------------------------------------------------------------------------
  // Properties of the transition function and the activation edge

  /** The previous state never influences the new one. */
  lemma CheckStateIgnoresPrevious(isOver: bool, p: ButtonState, q: ButtonState, mouse: MouseState)
    ensures CheckState(isOver, p, mouse) == CheckState(isOver, q, mouse)
  {
  }

  /** With the new state computed from the previous one, the edge is: hovering, clicked last
      frame, button now up. */
  lemma ActivationEdge(isOver: bool, prev: ButtonState, mouse: MouseState)
    ensures Activates(isOver, prev, CheckState(isOver, prev, mouse))
        <==> isOver && prev == Clicked && mouse.left == Up
  {
  }

  // ---------------------------------------------------------------------------------------
  // Properties of one frame

  /** A frame on a new id or a button always succeeds. Its previous state is the stored
      button state, or Normal for a new id; get_state reads the new state back afterwards;
      and the callback fires exactly when hovering, clicked last frame, with the button up. */
  lemma ResolveWritesBack(store: map<nat, Widget>, id: nat, isOver: bool, mouse: MouseState)
    requires id !in store || store[id].Button?
    ensures Resolve(store, id, isOver, mouse).Ok?
    ensures var res := Resolve(store, id, isOver, mouse).value;
      && res.outcome.prev == (if id in store then store[id].state else Normal)
      && StateOf(res.store, id) == Ok(res.outcome.next)
      && (res.outcome.fired <==> isOver && res.outcome.prev == Clicked && mouse.left == Up)
  {
  }

  /** A never-seen id is bound to a button and reads as Normal before the update. */
  lemma ResolveNewId(store: map<nat, Widget>, id: nat, isOver: bool, mouse: MouseState)
    requires id !in store
    ensures Resolve(store, id, isOver, mouse).Ok?
    ensures Resolve(store, id, isOver, mouse).value.outcome.prev == Normal
    ensures !Resolve(store, id, isOver, mouse).value.outcome.fired
    ensures Resolve(store, id, isOver, mouse).value.store == store[id := Widgets.Button(CheckState(isOver, Normal, mouse))]
  {
  }

  /** Hovering with the button up from Highlighted stays Highlighted over two frames, and
      the callback fires in neither. */
  lemma ResolveStableTwice(store: map<nat, Widget>, id: nat)
    requires id in store && store[id] == Widgets.Button(Highlighted)
    ensures var first := Resolve(store, id, true, MouseState(Up));
      && first.Ok? && first.value.outcome.next == Highlighted && !first.value.outcome.fired
      && var second := Resolve(first.value.store, id, true, MouseState(Up));
      && second.Ok? && second.value.outcome.next == Highlighted && !second.value.outcome.fired
      && second.value.store == store
  {
  }

  /** A successful frame in closed form. */
  lemma ResolveClosedForm(store: map<nat, Widget>, id: nat, isOver: bool, mouse: MouseState)
    requires id !in store || store[id].Button?
    ensures var prev := StateOf(store, id).value;
      var next := CheckState(isOver, prev, mouse);
      Resolve(store, id, isOver, mouse)
        == Ok(Resolution(store[id := Widgets.Button(next)],
                         Outcome(prev, next, AsRectangleState(next), Activates(isOver, prev, next))))
  {
  }

  /** Rebinding one id does not change how another id resolves: the other id reads the
      same previous state, computes the same outcome, and rebinds only itself. */
  lemma ResolveAfterOther(store: map<nat, Widget>, a: nat, w: Widget, b: nat, isOver: bool, mouse: MouseState)
    requires a != b
    requires b !in store || store[b].Button?
    ensures Resolve(store, b, isOver, mouse).Ok?
    ensures var rb := Resolve(store, b, isOver, mouse).value;
      Resolve(store[a := w], b, isOver, mouse)
        == Ok(Resolution(store[a := w][b := Widgets.Button(rb.outcome.next)], rb.outcome))
  {
    assert StateOf(store[a := w], b) == StateOf(store, b);
    ResolveClosedForm(store, b, isOver, mouse);
    ResolveClosedForm(store[a := w], b, isOver, mouse);
  }

  /** Resolving two different ids in either order gives the same store and the same
      outcomes: no widget's frame depends on another's. */
  lemma ResolveCommutes(store: map<nat, Widget>, a: nat, b: nat, overA: bool, mouseA: MouseState,
                        overB: bool, mouseB: MouseState)
    requires a != b
    requires a !in store || store[a].Button?
    requires b !in store || store[b].Button?
    ensures var ra := Resolve(store, a, overA, mouseA);
      var rb := Resolve(store, b, overB, mouseB);
      && ra.Ok? && rb.Ok?
      && var ab := Resolve(ra.value.store, b, overB, mouseB);
      && var ba := Resolve(rb.value.store, a, overA, mouseA);
      && ab.Ok? && ba.Ok?
      && ab.value.store == ba.value.store
      && ab.value.outcome == rb.value.outcome
      && ba.value.outcome == ra.value.outcome
  {
    var ra := Resolve(store, a, overA, mouseA).value;
    var rb := Resolve(store, b, overB, mouseB).value;
    var wa, wb := Widgets.Button(ra.outcome.next), Widgets.Button(rb.outcome.next);
    // each order, with the second frame unaffected by the first
    ResolveAfterOther(store, a, wa, b, overB, mouseB);
    ResolveAfterOther(store, b, wb, a, overA, mouseA);
    RebindCommutes(store, a, wa, b, wb);
  }

  /** Rebinding two different ids in either order gives the same store. */
  lemma RebindCommutes(store: map<nat, Widget>, a: nat, wa: Widget, b: nat, wb: Widget)
    requires a != b
    ensures store[a := wa][b := wb] == store[b := wb][a := wa]
  {
  }

  /** Four typical frames: press while hovering, release while hovering after a click, drag
      off while held, and an id owned by another widget kind. */
  lemma Scenarios(store: map<nat, Widget>, id: nat)
    ensures id in store && store[id] == Widgets.Button(Normal) ==>
      var res := Resolve(store, id, true, MouseState(Down));
      res.Ok? && res.value.outcome.next == Clicked && !res.value.outcome.fired
    ensures id in store && store[id] == Widgets.Button(Clicked) ==>
      var res := Resolve(store, id, true, MouseState(Up));
      res.Ok? && res.value.outcome.next == Highlighted && res.value.outcome.fired
    ensures id in store && store[id] == Widgets.Button(Clicked) ==>
      var res := Resolve(store, id, false, MouseState(Down));
      res.Ok? && res.value.outcome.next == Normal && !res.value.outcome.fired
    ensures id in store && store[id].Other? ==>
      Resolve(store, id, true, MouseState(Up)) == Err(WidgetKindMismatch(id, store[id]))
  {
  }

  /** A client of Draw: after a frame, fetching the state again returns exactly the state
      that frame resolved, and nothing else in the store changed. */
  method DrawThenFetch(uic: UIContext, id: nat, isOver: bool, mouse: MouseState)
    returns (r: Result<Outcome>, again: Result<ButtonState>)
    modifies uic
    ensures r.Ok? <==> (id !in old(uic.widgets) || old(uic.widgets)[id].Button?)
    ensures r.Ok? ==> again == Ok(r.value.next) && r.value.next == CheckState(isOver, r.value.prev, mouse)
    ensures r.Ok? ==> forall k :: k in old(uic.widgets) && k != id ==> k in uic.widgets && uic.widgets[k] == old(uic.widgets)[k]
    ensures r.Err? ==> uic.widgets == old(uic.widgets)
  {
    if id !in uic.widgets || uic.widgets[id].Button? {
      ResolveWritesBack(uic.widgets, id, isOver, mouse);
    }
    r := Draw(uic, id, isOver, mouse);
    again := GetState(uic, id);
  }
}
