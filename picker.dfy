/**
 * The picker widget's controller: it owns the selection model, resolves the snap target
 * when a drag ends, updates the indicator on every scroll frame, and forwards events to
 * an optional delegate. The collection view it drives is represented by the commands it
 * is sent, the haptic generator by a count of feedback pulses, and the delegate by the
 * set of hooks it implements and the calls it received.
 */
module Picker {
  import opened Wrappers
  import opened Selectable
  import opened ViewModel
  import opened Snap
  import Indicator

  /** What the widget asks of its collection view. */
  datatype Command = ScrollToItem(row: int, animated: bool) | ReloadItems

  /** The optional delegate hooks the widget calls. */
  datatype Hook = DidSelectItemHook | WillEndDraggingHook | DidScrollHook | ConfigureHook

  /** A call the delegate received. */
  datatype DelegateCall =
    | DidSelectItem(row: int)
    | WillEndDragging(velocity: Point, target: Point)
    | DidScroll
    | Configure(row: int)

  /**
   * The scroll commands of scrollToCell for a list of `count` cells: a row in the first
   * half is reached by jumping to the last cell without animation and animating back;
   * any other row is animated to directly.
   */
  function ScrollPlan(count: nat, row: int): (r: seq<Command>)
    ensures 1 <= |r| <= 2
    ensures r[|r| - 1] == ScrollToItem(row, true)
    ensures |r| == 2 <==> row < count / 2
    ensures |r| == 2 ==> r[0] == ScrollToItem(count - 1, false)
  {
    if row < count / 2 then [ScrollToItem(count - 1, false), ScrollToItem(row, true)]
    else [ScrollToItem(row, true)]
  }

  /** With ten cells, row 2 takes the two-step jump through row 9 and row 7 a single scroll. */
  lemma ScrollPlanExample()
    ensures ScrollPlan(10, 2) == [ScrollToItem(9, false), ScrollToItem(2, true)]
    ensures ScrollPlan(10, 7) == [ScrollToItem(7, true)]
  {
  }

  class PickerView {
    /** The cells the data source provides, when there is a data source. */
    var dataSource: Option<seq<Cell>>
    /** The hooks the delegate implements, when there is a delegate. */
    var delegate: Option<set<Hook>>
    var viewModel: PickerViewModel?
    var lastScrollProgress: real
    var commands: seq<Command>
    var delegateCalls: seq<DelegateCall>
    var feedbackCount: nat

    /** init(frame:): no data, no delegate, progress at rest. */
    constructor ()
      ensures dataSource == None && delegate == None && viewModel == null
      ensures lastScrollProgress == 0.0
      ensures commands == [] && delegateCalls == [] && feedbackCount == 0
      ensures SelectionInList()
    {
      dataSource := None;
      delegate := None;
      viewModel := null;
      lastScrollProgress := 0.0;
      commands := [];
      delegateCalls := [];
      feedbackCount := 0;
    }

    /** Whether a delegate is present and implements hook `h`; otherwise calling it does nothing. */
    predicate Implements(h: Hook)
      reads this
    {
      delegate.Some? && h in delegate.value
    }

    /** The selection, when there is one, is one of the loaded cells. */
    ghost predicate SelectionInList()
      reads this, viewModel
    {
      viewModel != null && viewModel.selectedCell.Some? ==> viewModel.selectedCell.value in viewModel.cells
    }

    /** collectionView(_:numberOfItemsInSection:): the number of loaded cells, none without a model. */
    function NumberOfItems(): (n: nat)
      reads this, viewModel
      ensures viewModel == null ==> n == 0
      ensures viewModel != null ==> n == |viewModel.cells|
    {
      if viewModel == null then 0 else |viewModel.cells|
    }

    /** reloadData(): a fresh model from the data source's cells and a reload of the collection view. */
    method ReloadData()
      modifies this`viewModel, this`commands
      ensures dataSource.None? ==> viewModel == old(viewModel) && commands == old(commands)
      ensures dataSource.Some? ==>
        && fresh(viewModel)
        && viewModel.cells == dataSource.value
        && viewModel.selectedCell == None
        && commands == old(commands) + [ReloadItems]
        && NumberOfItems() == |dataSource.value|
      ensures old(SelectionInList()) ==> SelectionInList()
    {
      if dataSource.None? {
        return;
      }
      viewModel := new PickerViewModel(dataSource.value);
      commands := commands + [ReloadItems];
    }

    /** Assigning `dataSource` reloads the data; clearing it leaves the old model in place. */
    method SetDataSource(cells: Option<seq<Cell>>)
      modifies this`dataSource, this`viewModel, this`commands
      ensures dataSource == cells
      ensures cells.None? ==> viewModel == old(viewModel) && commands == old(commands)
      ensures cells.Some? ==>
        && fresh(viewModel)
        && viewModel.cells == cells.value
        && viewModel.selectedCell == None
        && commands == old(commands) + [ReloadItems]
      ensures old(SelectionInList()) ==> SelectionInList()
    {
      dataSource := cells;
      ReloadData();
    }

    /** scrollToCell(at:): no command without a model, otherwise the scroll plan for the row. */
    method ScrollToCell(row: int)
      modifies this`commands
      ensures viewModel == null ==> commands == old(commands)
      ensures viewModel != null ==> commands == old(commands) + ScrollPlan(|viewModel.cells|, row)
    {
      if viewModel == null {
        return;
      }
      var count := |viewModel.cells|;
      if row < count / 2 {
        commands := commands + [ScrollToItem(count - 1, false)];
        commands := commands + [ScrollToItem(row, true)];
      } else {
        commands := commands + [ScrollToItem(row, true)];
      }
    }

    /** collectionView(_:didSelectItemAt:): animate the tapped row to the centre and tell the delegate. */
    method DidSelectItemAt(row: int)
      modifies this`commands, this`delegateCalls
      ensures commands == old(commands) + [ScrollToItem(row, true)]
      ensures delegateCalls == old(delegateCalls)
        + (if Implements(DidSelectItemHook) then [DidSelectItem(row)] else [])
    {
      commands := commands + [ScrollToItem(row, true)];
      if Implements(DidSelectItemHook) {
        delegateCalls := delegateCalls + [DidSelectItem(row)];
      }
    }

    /** collectionView(_:cellForItemAt:): the delegate configures each dequeued cell. */
    method CellForItemAt(row: int)
      modifies this`delegateCalls
      ensures delegateCalls == old(delegateCalls)
        + (if Implements(ConfigureHook) then [Configure(row)] else [])
    {
      if Implements(ConfigureHook) {
        delegateCalls := delegateCalls + [Configure(row)];
      }
    }

    /**
     * scrollViewWillEndDragging: `attributes` are the left edges the layout reports around
     * the proposed target (None when it reports nothing) and `overlayDistance` is the
     * overlay's distance from the collection view origin. The target comes back snapped,
     * or untouched with the delegate not called when there is nothing to snap to.
     */
    method WillEndDraggingAt(velocity: Point, target: Point, attributes: Option<seq<real>>, overlayDistance: real)
      returns (newTarget: Point)
      modifies this`delegateCalls
      ensures SnapTarget(target, attributes, overlayDistance).None? ==>
        newTarget == target && delegateCalls == old(delegateCalls)
      ensures SnapTarget(target, attributes, overlayDistance).Some? ==>
        && newTarget == SnapTarget(target, attributes, overlayDistance).value
        && delegateCalls == old(delegateCalls)
          + (if Implements(WillEndDraggingHook) then [WillEndDragging(velocity, newTarget)] else [])
    {
      newTarget := target;
      if attributes.None? {
        return;
      }
      var xOffsets := attributes.value;
      var actualOffset := SnapOffset(target.x, xOffsets, overlayDistance);
      if actualOffset.None? {
        return;
      }
      newTarget := newTarget.(x := actualOffset.value);
      if Implements(WillEndDraggingHook) {
        delegateCalls := delegateCalls + [WillEndDragging(velocity, newTarget)];
      }
    }

    /**
     * scrollViewDidScroll at scroll progress `progress`; `hit` is the row the collection
     * view finds under the overlay's centre, if any. Without a model nothing happens.
     * Otherwise the dot scale is returned, the progress is remembered for the next frame
     * on every path, and on a crossing a feedback pulse is given; if the hit test finds a
     * row, that cell is selected, a second pulse is given and the delegate is told.
     */
    method DidScrollTo(progress: real, hit: Option<int>) returns (scale: Option<real>)
      requires viewModel != null && hit.Some? ==> 0 <= hit.value < |viewModel.cells|
      modifies this`lastScrollProgress, this`feedbackCount, this`delegateCalls, viewModel
      ensures viewModel == old(viewModel)
      ensures viewModel == null ==>
        && scale == None
        && lastScrollProgress == old(lastScrollProgress)
        && feedbackCount == old(feedbackCount)
        && delegateCalls == old(delegateCalls)
      ensures viewModel != null ==>
        && viewModel.cells == old(viewModel.cells)
        && scale == Some(Indicator.DotScale(viewModel.cells, progress))
        && lastScrollProgress == progress
      ensures viewModel != null ==>
        var crossed := Indicator.Crossed(old(lastScrollProgress), progress);
        var selects := crossed && hit.Some?;
        && feedbackCount == old(feedbackCount) + (if !crossed then 0 else if hit.None? then 1 else 2)
        && viewModel.selectedCell
          == (if selects then Some(viewModel.cells[hit.value]) else old(viewModel.selectedCell))
        && delegateCalls == old(delegateCalls)
          + (if selects && Implements(DidScrollHook) then [DidScroll] else [])
      ensures old(SelectionInList()) ==> SelectionInList()
    {
      if viewModel == null {
        return None;
      }
      var vm := viewModel;
      // the guard below reads the value from before the deferred update
      var last := lastScrollProgress;
      lastScrollProgress := progress;
      scale := Some(Indicator.DotScale(vm.cells, progress));
      if !Indicator.Crossed(last, progress) {
        return;
      }
      feedbackCount := feedbackCount + 1;
      if hit.None? {
        return;
      }
      vm.Select(vm.cells[hit.value]);
      feedbackCount := feedbackCount + 1;
      if Implements(DidScrollHook) {
        delegateCalls := delegateCalls + [DidScroll];
      }
    }
  }

  /**
   * Feeding the frames 0, 0.4, 0.9, 1.0, 1.0, 1.1 to a freshly loaded widget, with the hit
   * test reporting the cell under the overlay's centre, crosses once: one selection, of the
   * second cell, two feedback pulses and one forwarded scroll event.
   */
  method CrossingScenario(cells: seq<Cell>) returns (pulses: nat, selected: Option<Cell>, calls: seq<DelegateCall>)
    requires |cells| >= 2
    ensures pulses == 2
    ensures selected == Some(cells[1])
    ensures calls == [DidScroll]
  {
    var picker := new PickerView();
    picker.delegate := Some({DidScrollHook});
    picker.SetDataSource(Some(cells));
    var frames := [0.0, 0.4, 0.9, 1.0, 1.0, 1.1];
    var _ := picker.DidScrollTo(frames[0], Some(0));
    var _ := picker.DidScrollTo(frames[1], Some(0));
    var _ := picker.DidScrollTo(frames[2], Some(1));
    var _ := picker.DidScrollTo(frames[3], Some(1));
    var _ := picker.DidScrollTo(frames[4], Some(1));
    var _ := picker.DidScrollTo(frames[5], Some(1));
    pulses := picker.feedbackCount;
    selected := picker.viewModel.selectedCell;
    calls := picker.delegateCalls;
  }
}
