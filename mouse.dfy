/** The per-frame pointer snapshot. The button reads only the primary (left) button, so the
    pointer position is reduced away: the hover test that uses it is an input of the model. */
module Mouse {

  datatype ButtonPosition = Up | Down

  datatype MouseState = MouseState(left: ButtonPosition)
}
