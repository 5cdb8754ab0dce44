/** The tagged per-widget state kept in the UI context. Besides buttons the store holds the
    states of other widget kinds; they are kept abstract, named only by their kind. */
module Widgets {

  import opened ButtonStates

  datatype Widget = Button(state: ButtonState) | Other(kind: string)
}
