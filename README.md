# Button widget state resolution (conrod), modelled in Dafny

This project models the per-frame logic of conrod's immediate-mode button (`src/button.rs`).
Each frame, `draw` looks the button's previous `ButtonState` (`Normal`, `Highlighted`,
`Clicked`) up in the UI context by its widget id. An id not seen before is bound to
`Button(Normal)`. `draw` then computes the new state from the hover test and the left mouse
button (`check_state`) and writes the new state back (`set_state`). The user's callback
runs on the `(hovered, Clicked, Highlighted)` edge only. The UI context holds one map from id
to a tagged `Widget` shared by all widget kinds. Finding another kind's state under a
button's id is a hard failure.

Modules, one per concept of the program:

- `Rectangle`: the rectangle renderer's visual states. Only the type is modelled.
- `Mouse`: the mouse snapshot, reduced to the left button.
- `ButtonStates`: `ButtonState` and `AsRectangleState`.
- `Widgets`: the tagged widget state. Widget kinds other than buttons are kept abstract as `Other(kind)`.
- `Context`: the UI context's store, as a class `UIContext` whose `widgets: map<nat, Widget>` is overwritten in place.
- `Button`: the functions of `src/button.rs`, with `draw` as the method `Draw`.
  `Resolve` is the pure value-level specification of one `draw` call. `Draw` is proved equal to it.
- `Frames`: `Run` draws the same button once per frame over a sequence of inputs.
  The lemmas in this module are about what holds across frames.

`fail!` becomes `Err(WidgetKindMismatch(id, found))`. The callback becomes the `fired` flag
of the frame's `Outcome`. The outcome also carries the rectangle state that would be passed to
the renderer. The hover test and the mouse state are parameters of `Draw`.

The source writes the new state back (line 73) before it decides whether to fire the
callback (lines 74-77). The model keeps that order; the order is not observable, because
the callback cannot reach the store.

## Model

| member | source | states |
|---|---|---|
| ButtonStates.AsRectangleState | src/button.rs:35-41 | each button state is drawn as the rectangle state of the same name |
| ButtonStates.AsRectangleStateBijective | src/button.rs:35-41 | the projection is a bijection, inverted by FromRectangleState |
| ButtonStates.AsRectangleStateInjective | src/button.rs:35-41 | two different button states are never drawn alike |
| Context.GetOrInsert | src/button.rs:84-86 | get-or-insert keeps an existing entry, binds a new id to the default, and leaves every other entry alone |
| Context.UIContext.GetWidget | src/button.rs:85 | the context's get-or-insert by id; the store afterwards is GetOrInsert of the store before, and the widget returned is the entry now bound |
| Context.UIContext.Overwrite | src/button.rs:99 | an in-place write through the widget reference; only the entry of that id changes |
| Button.Default | src/button.rs:80-81 | the default widget is a button in the Normal state |
| Button.StateOf | src/button.rs:88-94 | get_state as a value: it succeeds iff the id is new or a button; a new id reads as Normal and a bound button as its stored state; a mismatch reports the widget found |
| Button.StoreState | src/button.rs:96-102 | set_state as a value: it fails iff the id is bound to another widget kind; otherwise the store is the old one with the id bound to the new button state, and get_state reads that state back |
| Button.CheckState | src/button.rs:104-113 | the new state is Clicked iff hovered with the button down, Highlighted iff hovered with it up, and Normal iff not hovered |
| Button.Activates | src/button.rs:74-77 | of all 18 (hover, previous, new) triples, exactly (true, Clicked, Highlighted) is the activation edge |
| Button.Resolve | src/button.rs:57-77 | draw without rendering, as a value: it fails iff the id is bound to another widget kind, reporting that widget; otherwise the previous state is what get_state reads from the store, the new state is check_state of it, the store is the old one with only the id rebound to the new state, the rectangle shows the new state, and the callback fires iff the triple is the activation edge |
| Button.GetWidget | src/button.rs:80-86 | binds a new id to the default Button(Normal) and returns the entry of the id |
| Button.GetState | src/button.rs:88-94 | returns the get_state result on the old store; the store gains the default entry for a new id and is unchanged on a mismatch |
| Button.SetState | src/button.rs:96-102 | overwrites the button state of the id, or fails on another widget kind and leaves the store unchanged |
| Button.Draw | src/button.rs:46-78 | the result and the new store are those of Resolve on the old store; on a mismatch nothing is written |
| Button.CheckStateIgnoresPrevious | src/button.rs:108-112 | the previous state never affects the new one |
| Button.ActivationEdge | src/button.rs:74-77 | with the new state from check_state, firing happens iff hovered, previously Clicked and the button is up |
| Button.ResolveWritesBack | src/button.rs:57-77 | a frame on a new id or a button succeeds; the previous state is the stored button state or Normal for a new id; get_state reads the new state back; the callback fires iff hovered, previously Clicked and the button is up |
| Button.ResolveClosedForm | src/button.rs:57-77 | a successful frame writes Button(new) over the id and yields (previous, new, rectangle, activation) in closed form |
| Button.ResolveNewId | src/button.rs:81-91 | a never-seen id reads as Normal, never fires, and ends bound to the new button state |
| Button.ResolveStableTwice | src/button.rs:74-77 | two frames hovered with the button up from Highlighted both yield Highlighted, neither fires, and the store comes back unchanged |
| Button.ResolveAfterOther | src/button.rs:57-73 | rebinding one id leaves another id's frame unchanged: same previous state, same outcome, and only that id rebound |
| Button.ResolveCommutes | src/button.rs:57-73 | resolving two different ids in either order gives the same store and the same outcomes |
| Button.Scenarios | src/button.rs:57-77 | press while hovered gives Clicked without firing; release while hovered after Clicked fires; drag off while held gives Normal without firing; another widget kind under the id gives the mismatch error |
| Button.DrawThenFetch | src/button.rs:57-73 | fetching after a successful draw returns exactly the state that draw resolved, and other ids are unchanged |
| Frames.Run | src/button.rs:57-77 | draw repeated once per frame on one id, threading the store; a successful run resolves one state per frame and fires at most once per frame |
| Frames.RunFailsOnlyOnMismatch | src/button.rs:57-73 | a run of frames fails iff it is nonempty and the id starts bound to another widget kind |
| Frames.RunStatesFollowInputs | src/button.rs:105-113 | in every run, each frame's state depends on that frame's hover and mouse alone |
| Frames.RunWritesBack | src/button.rs:73 | after a nonempty run the store holds the last frame's state for the id, and no other entry has changed |
| Frames.RunFiresAtMostOncePerPress | src/button.rs:74-77 | over any run, the callback fires at most once per hovered press, plus once if the button starts out Clicked |
| Frames.RunHoverStable | src/button.rs:74-77 | any number of frames hovered with the button up, starting from Highlighted, stay Highlighted, leave the store as it was, and never fire |

## Left out

- Rendering (`rectangle::draw`, `label::draw`, `Gl`, `RenderArgs`, lines 62 and 70) is an external graphics call. The model keeps only the rectangle state that would be passed to it.
- Label centering (lines 63-71) is floating-point arithmetic over an external text measurement, and it does not affect the state.
- The hit test `rectangle::is_over` and the pointer position (line 59) belong to the rectangle module, which is not part of this model. The hover result is a boolean input.
- `uic.get_mouse_state()` (line 58) is replaced by a mouse-state parameter of `Draw`, with the state reduced to the left button.
- The `widget_state!` macro (lines 27-31) is modelled only as the three-valued `ButtonState`. What the macro generates from the numbers 0, 1 and 2 is not shown, so those numbers are not modelled.
- The UI context (`ui_context.rs`) and the `Widget` enum (`widget.rs`) are not part of this model. The model covers only what `src/button.rs` relies on: get-or-insert and in-place overwrite by id. It keeps the other widget kinds abstract.
- The callback's own effects are not modelled, since it is an opaque zero-argument closure. The model records only whether it was invoked.
- `fail!` aborts the task in the source. The model returns an error result instead. The store is unchanged then, because the failure comes before any write.
- Widget ids are `uint` in the source and `nat` here. Ids are only compared, so their width does not matter.
