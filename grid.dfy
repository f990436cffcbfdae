/** The 3x3 grid of zoomed views (lines 204-230): event `k` is drawn in the
    cell at row `k / 3`, column `k % 3`; after the last event the remaining
    cells are deleted from the figure. */
module ZoomGrid {

  const GridSide: nat := 3
  const GridCells: nat := GridSide * GridSide

  datatype Cell = Cell(row: nat, col: nat)

  /** `axs[k // 3, k % 3]`: row-major position `k` of the grid, which the
      cell determines again. */
  function CellOf(k: nat): (c: Cell)
    ensures GridSide * c.row + c.col == k
    ensures c.col < GridSide
    ensures k < GridCells ==> c.row < GridSide
  {
    Cell(k / GridSide, k % GridSide)
  }

  predicate InGrid(c: Cell) {
    c.row < GridSide && c.col < GridSide
  }

  /** The cells drawn for `events` events, one per event in event order,
      stopping at the ninth (drawing a tenth raises IndexError). */
  function DrawnCells(events: nat): (cells: seq<Cell>)
    ensures |cells| == if events < GridCells then events else GridCells
  {
    var n := if events < GridCells then events else GridCells;
    seq(n, k requires 0 <= k < n => CellOf(k))
  }

  /** The cells deleted after the last event: those after it, when there is
      a last event within the grid; none for zero events or an overflow. */
  function RemovedCells(events: nat): (cells: seq<Cell>)
    ensures 0 < events <= GridCells ==> |cells| == GridCells - events
    ensures events == 0 || events > GridCells ==> cells == []
  {
    if events == 0 || events > GridCells then []
    else seq(GridCells - events, j requires 0 <= j < GridCells - events => CellOf(events + j))
  }

  /** The positions `0..8` name the nine cells of the grid, each once. */
  lemma {:induction false} CellOfBijective(k: nat, k': nat)
    requires k < GridCells && k' < GridCells
    ensures InGrid(CellOf(k))
    ensures CellOf(k) == CellOf(k') ==> k == k'
  {
    assert k == GridSide * (k / GridSide) + k % GridSide;
    assert k' == GridSide * (k' / GridSide) + k' % GridSide;
  }

  /** Every cell of the grid is the cell of some position `0..8`. */
  lemma CellOfOnto(c: Cell)
    requires InGrid(c)
    ensures GridSide * c.row + c.col < GridCells
    ensures CellOf(GridSide * c.row + c.col) == c
  {
  }

  /** A drawn cell is never deleted: positions before `events` and from
      `events` on name different cells. */
  lemma DrawnNotRemoved(events: nat, c: Cell)
    requires 0 < events <= GridCells && c in DrawnCells(events)
    ensures c !in RemovedCells(events)
  {
    var drawn, removed := DrawnCells(events), RemovedCells(events);
    var a :| 0 <= a < |drawn| && drawn[a] == c;
    forall j | 0 <= j < |removed|
      ensures removed[j] != c
    {
      CellOfBijective(a, events + j);
    }
  }

  /** Each cell of the grid is drawn or deleted, and nothing else is. */
  lemma DrawnOrRemoved(events: nat, c: Cell)
    requires 0 < events <= GridCells
    ensures InGrid(c) <==> c in DrawnCells(events) || c in RemovedCells(events)
  {
    var drawn, removed := DrawnCells(events), RemovedCells(events);
    if InGrid(c) {
      CellOfOnto(c);
      var k := GridSide * c.row + c.col;
      if k < events {
        assert drawn[k] == c;
      } else {
        assert removed[k - events] == c;
      }
    } else {
      forall a | 0 <= a < |drawn|
        ensures drawn[a] != c
      {
        CellOfBijective(a, a);
      }
      forall j | 0 <= j < |removed|
        ensures removed[j] != c
      {
        CellOfBijective(events + j, events + j);
      }
    }
  }

  /** For one to nine events, the drawn cells are pairwise distinct, and the
      drawn and the deleted cells are disjoint and together make up the
      whole grid. */
  lemma GridPartition(events: nat)
    requires 0 < events <= GridCells
    ensures forall a, b | 0 <= a < b < |DrawnCells(events)| :: DrawnCells(events)[a] != DrawnCells(events)[b]
    ensures forall c | c in DrawnCells(events) :: c !in RemovedCells(events)
    ensures forall c :: InGrid(c) <==> c in DrawnCells(events) || c in RemovedCells(events)
  {
    var drawn := DrawnCells(events);
    forall a, b | 0 <= a < b < |drawn|
      ensures drawn[a] != drawn[b]
    {
      CellOfBijective(a, b);
    }
    forall c | c in drawn
      ensures c !in RemovedCells(events)
    {
      DrawnNotRemoved(events, c);
    }
    forall c
      ensures InGrid(c) <==> c in drawn || c in RemovedCells(events)
    {
      DrawnOrRemoved(events, c);
    }
  }

  /** The loop over the retained breakpoints: pick the cell of event `k`,
      and when `k` is the last event delete the cells after it. Reaching a
      tenth event stops the loop, as `axs[3, 0]` raises IndexError. */
  method LayoutGrid(events: nat) returns (drawn: seq<Cell>, removed: seq<Cell>, overflow: bool)
    ensures overflow <==> events > GridCells
    ensures drawn == DrawnCells(events)
    ensures removed == RemovedCells(events)
  {
    drawn, removed, overflow := [], [], false;
    var k := 0;
    while k < events
      invariant k <= events && k <= GridCells
      invariant drawn == seq(k, m requires 0 <= m < k => CellOf(m))
      invariant removed == if k == events && k > 0 then RemovedCells(events) else []
    {
      if k >= GridCells {
        overflow := true;
        return;
      }
      drawn := drawn + [CellOf(k)];
      if k == events - 1 {
        for j := k + 1 to GridCells
          invariant removed == seq(j - (k + 1), m requires 0 <= m < j - (k + 1) => CellOf(k + 1 + m))
        {
          removed := removed + [CellOf(j)];
        }
      }
      k := k + 1;
    }
  }
}
