/** The visual variants of the rectangle renderer that the button delegates its drawing to.
    Only the type is needed here: the rectangle's hit-test and drawing are not part of this model. */
module Rectangle {

  datatype RectangleState = Normal | Highlighted | Clicked
}
