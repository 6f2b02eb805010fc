/** The selection model behind a picker: the cells it was loaded with and the selected one. */
module ViewModel {
  import opened Wrappers
  import opened Selectable

  class PickerViewModel {
    var cells: seq<Cell>
    var selectedCell: Option<Cell>

    /** init(cells:): stores the cells as given; nothing is selected yet. */
    constructor (cells: seq<Cell>)
      ensures this.cells == cells
      ensures selectedCell == None
    {
      this.cells := cells;
      selectedCell := None;
    }

    /**
     * select(cell:): the given cell becomes the selection. There is no check that the
     * cell belongs to `cells`, and only the selection changes.
     */
    method Select(cell: Cell)
      modifies this`selectedCell
      ensures selectedCell == Some(cell)
      ensures cells == old(cells)
    {
      selectedCell := Some(cell);
    }
  }

  /**
   * The model's own test scenario: a model made from `cells` keeps their count, and after
   * selecting the first and then the third cell the selection reflects each in turn.
   */
  method SelectCellScenario(cells: seq<Cell>) returns (count: nat, first: Option<Cell>, second: Option<Cell>)
    requires |cells| >= 3
    ensures count == |cells|
    ensures first.Some? && first.value.isSelectable == cells[0].isSelectable
    ensures second.Some? && second.value.isSelectable == cells[2].isSelectable
  {
    var subject := new PickerViewModel(cells);
    count := |subject.cells|;
    subject.Select(subject.cells[0]);
    first := subject.selectedCell;
    subject.Select(subject.cells[2]);
    second := subject.selectedCell;
  }
}
