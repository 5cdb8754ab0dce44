/** The interaction state of a button and its projection onto the rectangle's visual state. */
module ButtonStates {

  import R = Rectangle

  datatype ButtonState = Normal | Highlighted | Clicked

  /** The rectangle variant a button in state `s` is drawn with: each state maps to the
      rectangle state of the same name. */
  function AsRectangleState(s: ButtonState): (r: R.RectangleState)
    ensures r.Normal? <==> s.Normal?
    ensures r.Highlighted? <==> s.Highlighted?
    ensures r.Clicked? <==> s.Clicked?
  {
    match s
    case Normal => R.Normal
    case Highlighted => R.Highlighted
    case Clicked => R.Clicked
  }

  /** The button state drawn as rectangle state `r`; the inverse of AsRectangleState. */
  function FromRectangleState(r: R.RectangleState): (s: ButtonState)
  {
    match r
    case Normal => Normal
    case Highlighted => Highlighted
    case Clicked => Clicked
  }

  /** The projection loses nothing: it is a bijection whose inverse is FromRectangleState. */
  lemma AsRectangleStateBijective(s: ButtonState, r: R.RectangleState)
    ensures FromRectangleState(AsRectangleState(s)) == s
    ensures AsRectangleState(FromRectangleState(r)) == r
  {
  }

  /** Two different button states are never drawn alike. */
  lemma AsRectangleStateInjective(s: ButtonState, t: ButtonState)
    ensures AsRectangleState(s) == AsRectangleState(t) ==> s == t
  {
  }
}
