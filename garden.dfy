/** The garden planner: a palette of plant names and an 8x8 grid that plants
    are dragged onto, moved around and dragged to the trash. */
module Garden {
  import opened Types
  import Sessions

  const GridSize: nat := 8

  /** Where a drag started. */
  datatype DragKind = FromPalette | FromGrid

  datatype Cell = Cell(r: nat, c: nat)

  /** The item being dragged; `from` is the grid cell it left, if any. */
  datatype DragItem = DragItem(kind: DragKind, data: string, from: Option<Cell>)

  type Grid = seq<seq<Option<string>>>

  predicate InGrid(cell: Cell) { cell.r < GridSize && cell.c < GridSize }

  predicate IsGrid(g: Grid) {
    |g| == GridSize && forall i :: 0 <= i < |g| ==> |g[i]| == GridSize
  }

  /** The grid with one cell replaced. */
  function Put(g: Grid, cell: Cell, v: Option<string>): (g': Grid)
    requires IsGrid(g) && InGrid(cell)
    ensures IsGrid(g')
    ensures g'[cell.r][cell.c] == v
    ensures forall i, j :: 0 <= i < GridSize && 0 <= j < GridSize && (i != cell.r || j != cell.c) ==> g'[i][j] == g[i][j]
  {
    g[cell.r := g[cell.r][cell.c := v]]
  }

  /** The grid after `item` is dropped on cell (r, c): its old cell, if any,
      is cleared, then the target holds the plant. */
  function DroppedOnGrid(g: Grid, item: DragItem, target: Cell): (g': Grid)
    requires IsGrid(g) && InGrid(target)
    requires item.from.Some? ==> InGrid(item.from.value)
    ensures IsGrid(g') && g'[target.r][target.c] == Some(item.data)
  {
    var cleared := if item.from.Some? then Put(g, item.from.value, None) else g;
    Put(cleared, target, Some(item.data))
  }

  /** The grid after `item` is dropped on the trash: only a grid drag clears
      its old cell. */
  function DroppedOnTrash(g: Grid, item: Option<DragItem>): (g': Grid)
    requires IsGrid(g)
    requires item.Some? && item.value.from.Some? ==> InGrid(item.value.from.value)
    ensures IsGrid(g')
    ensures !(item.Some? && item.value.kind == FromGrid) ==> g' == g
  {
    if item.Some? && item.value.kind == FromGrid && item.value.from.Some?
    then Put(g, item.value.from.value, None)
    else g
  }

  /** Moving a plant between two cells: the source becomes empty, the target
      holds the plant, and no other cell changes. */
  lemma MoveClearsSourceFillsTarget(g: Grid, item: DragItem, target: Cell)
    requires IsGrid(g) && InGrid(target)
    requires item.from.Some? && InGrid(item.from.value) && item.from.value != target
    ensures IsGrid(DroppedOnGrid(g, item, target))
    ensures DroppedOnGrid(g, item, target)[item.from.value.r][item.from.value.c] == None
    ensures DroppedOnGrid(g, item, target)[target.r][target.c] == Some(item.data)
    ensures forall i, j :: 0 <= i < GridSize && 0 <= j < GridSize && Cell(i, j) != target && Cell(i, j) != item.from.value ==>
              DroppedOnGrid(g, item, target)[i][j] == g[i][j]
  {
    var from := item.from.value;
    var cleared := Put(g, from, None);
    assert from.r != target.r || from.c != target.c;
    forall i, j | 0 <= i < GridSize && 0 <= j < GridSize && Cell(i, j) != target && Cell(i, j) != from
      ensures DroppedOnGrid(g, item, target)[i][j] == g[i][j]
    {
      assert i != target.r || j != target.c;
      assert i != from.r || j != from.c;
    }
  }

  /** Dropping a plant on the cell it came from leaves it there. */
  lemma DropOnOwnCell(g: Grid, item: DragItem)
    requires IsGrid(g)
    requires item.from.Some? && InGrid(item.from.value)
    ensures IsGrid(DroppedOnGrid(g, item, item.from.value))
    ensures forall i, j :: 0 <= i < GridSize && 0 <= j < GridSize && Cell(i, j) != item.from.value ==>
              DroppedOnGrid(g, item, item.from.value)[i][j] == g[i][j]
    ensures DroppedOnGrid(g, item, item.from.value)[item.from.value.r][item.from.value.c] == Some(item.data)
  {
    var from := item.from.value;
    forall i, j | 0 <= i < GridSize && 0 <= j < GridSize && Cell(i, j) != from
      ensures DroppedOnGrid(g, item, from)[i][j] == g[i][j]
    {
      assert i != from.r || j != from.c;
    }
  }

  /** A drop from the palette fills the target and nothing else. */
  lemma PaletteDropFillsTarget(g: Grid, item: DragItem, target: Cell)
    requires IsGrid(g) && InGrid(target) && item.from.None?
    ensures IsGrid(DroppedOnGrid(g, item, target))
    ensures DroppedOnGrid(g, item, target)[target.r][target.c] == Some(item.data)
    ensures forall i, j :: 0 <= i < GridSize && 0 <= j < GridSize && Cell(i, j) != target ==>
              DroppedOnGrid(g, item, target)[i][j] == g[i][j]
  {
    forall i, j | 0 <= i < GridSize && 0 <= j < GridSize && Cell(i, j) != target
      ensures DroppedOnGrid(g, item, target)[i][j] == g[i][j]
    {
      assert i != target.r || j != target.c;
    }
  }

  /** The trash clears the source cell of a grid drag and nothing else; any
      other drag leaves the grid as it is. */
  lemma TrashClearsGridSourceOnly(g: Grid, item: Option<DragItem>)
    requires IsGrid(g)
    requires item.Some? && item.value.from.Some? ==> InGrid(item.value.from.value)
    ensures IsGrid(DroppedOnTrash(g, item))
    ensures item.Some? && item.value.kind == FromGrid && item.value.from.Some? ==>
              DroppedOnTrash(g, item)[item.value.from.value.r][item.value.from.value.c] == None
    ensures forall i, j ::
              (0 <= i < GridSize && 0 <= j < GridSize
               && !(item.Some? && item.value.kind == FromGrid && item.value.from == Some(Cell(i, j)))) ==>
              DroppedOnTrash(g, item)[i][j] == g[i][j]
  {
    if item.Some? && item.value.kind == FromGrid && item.value.from.Some? {
      var from := item.value.from.value;
      forall i, j | 0 <= i < GridSize && 0 <= j < GridSize && Cell(i, j) != from
        ensures DroppedOnTrash(g, item)[i][j] == g[i][j]
      {
        assert i != from.r || j != from.c;
      }
    }
  }

  /** Two grids with the same cells are the same grid. */
  lemma SameCells(g: Grid, h: Grid)
    requires IsGrid(g) && IsGrid(h)
    requires forall i, j :: 0 <= i < GridSize && 0 <= j < GridSize ==> g[i][j] == h[i][j]
    ensures g == h
  {
    forall i | 0 <= i < GridSize ensures g[i] == h[i] {
      assert forall j :: 0 <= j < GridSize ==> g[i][j] == h[i][j];
    }
  }

  /** The planner panel's state. The grid is kept while the panel is mounted. */
  class Planner {
    var palette: seq<string>
    var grid: array2<Option<string>>
    var dragged: Option<DragItem>

    predicate Valid()
      reads this
    {
      grid.Length0 == GridSize && grid.Length1 == GridSize
      && (dragged.Some? && dragged.value.from.Some? ==> InGrid(dragged.value.from.value))
    }

    /** The grid's contents as a value. */
    function Cells(): (g: Grid)
      reads this, grid
      requires Valid()
      ensures IsGrid(g)
      ensures forall i, j :: 0 <= i < GridSize && 0 <= j < GridSize ==> g[i][j] == grid[i, j]
    {
      var a := grid;
      seq(GridSize, i requires 0 <= i < a.Length0 reads a =>
        seq(GridSize, j requires 0 <= i < a.Length0 && 0 <= j < a.Length1 reads a => a[i, j]))
    }

    /** An empty palette and an 8x8 grid of empty cells. */
    constructor()
      ensures Valid() && fresh(grid)
      ensures palette == [] && dragged == None
      ensures forall i, j :: 0 <= i < GridSize && 0 <= j < GridSize ==> grid[i, j] == None
    {
      palette := [];
      dragged := None;
      grid := new Option<string>[GridSize, GridSize]((i, j) => None);
    }

    /** Opening the panel loads the palette the application computes from
        the chat titles. */
    method Open(history: seq<ChatSession>)
      modifies this
      ensures palette == Sessions.PlantTitles(history)
      ensures Sessions.Distinct(palette)
      ensures grid == old(grid) && dragged == old(dragged)
    {
      palette := Sessions.PlantTitles(history);
    }

    /** `handleAddNewPlant`: a non-empty name not yet in the palette is
        appended; a palette without repeats keeps none. */
    method AddPlant(name: string)
      modifies this
      ensures palette == if name != "" && name !in old(palette) then old(palette) + [name] else old(palette)
      ensures Sessions.Distinct(old(palette)) ==> Sessions.Distinct(palette)
      ensures grid == old(grid) && dragged == old(dragged)
    {
      if name != "" && name !in palette {
        palette := palette + [name];
      }
    }

    /** `handleDragStart`: grid drags carry the cell they leave. */
    method DragStart(kind: DragKind, data: string, from: Option<Cell>)
      requires Valid()
      requires from.Some? ==> InGrid(from.value)
      modifies this
      ensures Valid() && dragged == Some(DragItem(kind, data, from))
      ensures palette == old(palette) && grid == old(grid)
    {
      dragged := Some(DragItem(kind, data, from));
    }

    /** `prevGrid.map(row => [...row])`. */
    static method CopyGrid(g: array2<Option<string>>) returns (n: array2<Option<string>>)
      ensures fresh(n)
      ensures n.Length0 == g.Length0 && n.Length1 == g.Length1
      ensures forall i, j :: 0 <= i < g.Length0 && 0 <= j < g.Length1 ==> n[i, j] == g[i, j]
    {
      n := new Option<string>[g.Length0, g.Length1];
      var i := 0;
      while i < g.Length0
        invariant 0 <= i <= g.Length0
        invariant forall a, b :: 0 <= a < i && 0 <= b < g.Length1 ==> n[a, b] == g[a, b]
      {
        var j := 0;
        while j < g.Length1
          invariant 0 <= j <= g.Length1
          invariant forall a, b :: 0 <= a < i && 0 <= b < g.Length1 ==> n[a, b] == g[a, b]
          invariant forall b :: 0 <= b < j ==> n[i, b] == g[i, b]
        {
          n[i, j] := g[i, j];
          j := j + 1;
        }
        i := i + 1;
      }
    }

    /** `handleDropOnGrid`: with no drag in progress nothing happens. */
    method DropOnGrid(r: nat, c: nat)
      requires Valid() && r < GridSize && c < GridSize
      modifies this
      ensures Valid() && dragged == None && palette == old(palette)
      ensures old(dragged).None? ==> grid == old(grid)
      ensures old(dragged).Some? ==> fresh(grid) && Cells() == DroppedOnGrid(old(Cells()), old(dragged).value, Cell(r, c))
    {
      if dragged.None? {
        return;
      }
      var item := dragged.value;
      ghost var before := Cells();
      var next := CopyGrid(grid);
      if item.from.Some? {
        next[item.from.value.r, item.from.value.c] := None;
      }
      next[r, c] := Some(item.data);
      grid := next;
      dragged := None;
      SameCells(Cells(), DroppedOnGrid(before, item, Cell(r, c)));
    }

    /** `handleDropOnTrash`: ends the drag either way. */
    method DropOnTrash()
      requires Valid()
      modifies this
      ensures Valid() && dragged == None && palette == old(palette)
      ensures var clears := old(dragged).Some? && old(dragged).value.kind == FromGrid && old(dragged).value.from.Some?;
              && (!clears ==> grid == old(grid))
              && (clears ==> fresh(grid))
              && Cells() == DroppedOnTrash(old(Cells()), old(dragged))
    {
      ghost var before := Cells();
      ghost var item := dragged;
      if dragged.Some? && dragged.value.kind == FromGrid && dragged.value.from.Some? {
        var from := dragged.value.from.value;
        var next := CopyGrid(grid);
        next[from.r, from.c] := None;
        grid := next;
      }
      dragged := None;
      SameCells(Cells(), DroppedOnTrash(before, item));
    }
  }
}
