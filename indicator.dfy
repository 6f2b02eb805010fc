/**
 * The per-frame indicator logic of scrollViewDidScroll: the dot scale interpolated
 * from the selectability of the two cells around the scroll progress, and the
 * crossing detector that decides when the selection is re-resolved.
 */
module Indicator {
  import opened Wrappers
  import opened Selectable
  import opened FloatExtensions
  import ArrayExtensions

  /** `cells[safe: i]?.isSelectable ?? false`: cells outside the list are not selectable. */
  function SelectableAt(cells: seq<Cell>, i: int): (b: bool)
    ensures b <==> 0 <= i < |cells| && cells[i].isSelectable
  {
    match ArrayExtensions.SafeGet(cells, i)
    case Some(c) => c.isSelectable
    case None => false
  }

  /**
   * The four-way table on (left selectable, right selectable) at `fraction` into the cell.
   * Inside a cell every row stays in [0, 1.5]; with both neighbours selectable the dot is
   * at least full size and largest exactly mid-cell; with one the dot is at most full size;
   * with neither it is hidden.
   */
  function ScaleFor(left: bool, right: bool, fraction: real): (r: real)
    ensures 0.0 <= fraction <= 1.0 ==> 0.0 <= r <= 1.5
    ensures left && right && 0.0 <= fraction <= 1.0 ==> 1.0 <= r && (r == 1.5 <==> fraction == 0.5)
    ensures left != right && 0.0 <= fraction <= 1.0 ==> r <= 1.0
    ensures !left && !right ==> r == 0.0
  {
    match (left, right)
    case (true, true) => 1.5 - Fabs(0.5 - fraction)
    case (true, false) => 1.0 - fraction
    case (false, true) => fraction
    case (false, false) => 0.0
  }

  /**
   * The dot scale written to the overlay at scroll progress `progress` (content offset
   * divided by the cell width): the left neighbour is the floor cell, the right one the
   * ceiling cell, and the fraction is the distance past the floor.
   */
  function DotScale(cells: seq<Cell>, progress: real): (r: real)
    ensures 0.0 <= r <= 1.5
    ensures |cells| == 0 ==> r == 0.0
  {
    var leftIndex := Floor(progress);
    var rightIndex := Ceil(progress);
    var interCellProgress := progress - leftIndex as real;
    ScaleFor(SelectableAt(cells, leftIndex), SelectableAt(cells, rightIndex), interCellProgress)
  }

  /**
   * The rows inside one cell against each other: both selectable starts at full size,
   * a left-only dot never vanishes before the cell ends, and the two one-sided rows
   * are complementary.
   */
  lemma ScaleTable(fraction: real)
    requires 0.0 <= fraction < 1.0
    ensures fraction == 0.0 ==> ScaleFor(true, true, fraction) == 1.0
    ensures 0.0 < ScaleFor(true, false, fraction)
    ensures ScaleFor(true, false, fraction) + ScaleFor(false, true, fraction) == 1.0
  {
  }

  /** With both neighbours selectable the dot is at least full size and largest mid-cell. */
  lemma BothSelectablePeaksMidCell(cells: seq<Cell>, progress: real)
    requires SelectableAt(cells, Floor(progress)) && SelectableAt(cells, Ceil(progress))
    ensures 1.0 <= DotScale(cells, progress) <= 1.5
    ensures DotScale(cells, progress) == 1.5 <==> progress - Floor(progress) as real == 0.5
  {
  }

  /**
   * At whole-number progress the two neighbours are the same cell, so the flags agree and
   * the dot is full size on a selectable cell and hidden otherwise.
   */
  lemma ScaleAtWholeProgress(cells: seq<Cell>, k: int)
    ensures Floor(k as real) == Ceil(k as real) == k
    ensures DotScale(cells, k as real) == if SelectableAt(cells, k) then 1.0 else 0.0
  {
  }

  /** Past either end of the list (a fast fling) neither neighbour exists and the dot is hidden. */
  lemma ScaleBeyondEnds(cells: seq<Cell>, progress: real)
    requires progress <= -1.0 || progress >= |cells| as real
    ensures DotScale(cells, progress) == 0.0
  {
    assert Ceil(progress) < 0 || Floor(progress) >= |cells|;
  }

  /** Inside a cell the floor and ceiling are the cell's two ends. */
  lemma NeighboursInsideCell(progress: real, k: int)
    requires k as real < progress < k as real + 1.0
    ensures Floor(progress) == k && Ceil(progress) == k + 1
  {
  }

  /**
   * Each row of the table moves by at most the distance travelled, and at the two cell ends
   * it meets the value of the single cell found there.
   */
  lemma ScaleForMeetsCellEnds(left: bool, right: bool, fraction: real)
    requires 0.0 < fraction < 1.0
    ensures Fabs(ScaleFor(left, right, fraction) - ScaleFor(right, right, 0.0)) <= 1.0 - fraction
    ensures Fabs(ScaleFor(left, right, fraction) - ScaleFor(left, left, 0.0)) <= fraction
  {
  }

  /**
   * The dot scale is continuous where the neighbours change: approaching whole-number
   * progress k from below, it differs from its value at k by at most the distance still to go.
   */
  lemma ScaleContinuousFromBelow(cells: seq<Cell>, k: int, progress: real)
    requires k as real - 1.0 < progress < k as real
    ensures Fabs(DotScale(cells, progress) - DotScale(cells, k as real)) <= k as real - progress
  {
    NeighboursInsideCell(progress, k - 1);
    ScaleAtWholeProgress(cells, k);
    ScaleForMeetsCellEnds(SelectableAt(cells, k - 1), SelectableAt(cells, k), progress - (k - 1) as real);
  }

  /** The same leaving whole-number progress k upwards. */
  lemma ScaleContinuousFromAbove(cells: seq<Cell>, k: int, progress: real)
    requires k as real < progress < k as real + 1.0
    ensures Fabs(DotScale(cells, progress) - DotScale(cells, k as real)) <= progress - k as real
  {
    NeighboursInsideCell(progress, k);
    ScaleAtWholeProgress(cells, k);
    ScaleForMeetsCellEnds(SelectableAt(cells, k), SelectableAt(cells, k + 1), progress - k as real);
  }

  /**
   * The guard on lastScrollProgress: the integer part changed while the previous
   * progress was not integral, or the new progress is integral and the previous was not.
   */
  function Crossed(last: real, current: real): (r: bool)
    ensures last == current ==> !r
    ensures IsIntegral(last) ==> !r
  {
    (IntegerBelow(last) != IntegerBelow(current) && !IsIntegral(last))
    || (IsIntegral(current) && !IsIntegral(last))
  }

  /** Integer `k` lies on the way from `last` to `current`, `current` included and `last` excluded. */
  predicate Reaches(last: real, current: real, k: int)
  {
    (last < k as real <= current) || (current <= k as real < last)
  }

  /**
   * What the guard means: it fires exactly when the previous progress was strictly inside
   * a cell and the move from it reached or passed a whole number, in either direction.
   */
  lemma CrossedIffReachesWholeNumber(last: real, current: real)
    ensures Crossed(last, current) <==>
      last != Floor(last) as real && exists k :: Reaches(last, current, k)
  {
    IsIntegralIffWhole(last);
    IsIntegralIffWhole(current);
    var f := Floor(last);
    if last != f as real {
      if Crossed(last, current) {
        if current > last {
          assert Reaches(last, current, Floor(current));
        } else {
          assert Reaches(last, current, f);
        }
      }
      if k :| Reaches(last, current, k) {
        if last < k as real <= current {
          assert Floor(current) >= k > f;
        } else {
          assert current <= k as real < last;
          assert k <= f;
          assert Floor(current) != f || current == f as real;
        }
      }
    }
  }

  /**
   * The guard over a run of frames: frame i is compared with frame i - 1, because
   * lastScrollProgress is overwritten with the current progress on every frame.
   */
  function Crossings(last: real, frames: seq<real>): (r: seq<bool>)
    ensures |r| == |frames|
    ensures |frames| > 0 ==> r[0] == Crossed(last, frames[0])
    ensures forall i :: 0 < i < |frames| ==> r[i] == Crossed(frames[i - 1], frames[i])
    decreases |frames|
  {
    if |frames| == 0 then []
    else [Crossed(last, frames[0])] + Crossings(frames[0], frames[1..])
  }

  /** A frame that repeats the previous progress never fires. */
  lemma RepeatedFrameNeverFires(last: real, frames: seq<real>, i: int)
    requires 0 < i < |frames| && frames[i] == frames[i - 1]
    ensures !Crossings(last, frames)[i]
  {
  }

  /** Scrolling 0, 0.4, 0.9, 1.0, 1.0, 1.1 from rest fires once, on landing at 1.0. */
  lemma CrossingExample()
    ensures Crossings(0.0, [0.0, 0.4, 0.9, 1.0, 1.0, 1.1]) == [false, false, false, true, false, false]
  {
    IsIntegralIffWhole(0.4);
    IsIntegralIffWhole(0.9);
    IsIntegralIffWhole(1.1);
    IsIntegralOfInteger(0);
    IsIntegralOfInteger(1);
  }
}
