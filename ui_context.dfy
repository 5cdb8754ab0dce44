/** The UI context's widget store: one heterogeneous map from widget id to tagged widget state,
    shared by all widget kinds, with get-or-insert and overwrite by id. */
module Context {

  import opened Widgets

  /** The store after a get-or-insert of `id` with `default`: an existing entry is kept,
      a missing one is bound to `default`, and no other entry changes. */
  function GetOrInsert(m: map<nat, Widget>, id: nat, default: Widget): (r: map<nat, Widget>)
    ensures r.Keys == m.Keys + {id}
    ensures r[id] == if id in m then m[id] else default
    ensures forall k :: k in m ==> r[k] == m[k]
  {
    if id in m then m else m[id := default]
  }

  class UIContext {
    var widgets: map<nat, Widget>

    constructor ()
      ensures widgets == map[]
    {
      widgets := map[];
    }

    /** Returns the widget bound to `id`, binding it to `default` first if `id` is new. */
    method GetWidget(id: nat, default: Widget) returns (w: Widget)
      modifies this
      ensures widgets == GetOrInsert(old(widgets), id, default)
      ensures w == widgets[id]
    {
      if id !in widgets {
        widgets := widgets[id := default];
      }
      w := widgets[id];
    }

    /** Writes `w` in place of the entry of `id`, which GetWidget has made present. */
    method Overwrite(id: nat, w: Widget)
      requires id in widgets
      modifies this
      ensures widgets == old(widgets)[id := w]
    {
      widgets := widgets[id := w];
    }
  }
}
