/** A picker cell, reduced to the one property the picker reads from it. */
module Selectable {
  datatype Cell = Cell(isSelectable: bool)
}
