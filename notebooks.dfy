/** The in-memory notebook: a list of cells, each with a kind and a source
    text that can be changed in place. */
module Notebooks {

  /** The `cell_type` of a cell: markdown, code, or any other kind (raw). */
  datatype CellType = Markdown | Code | Other

  /** The value a cell holds at one moment: what the filter looks at. */
  datatype CellView = CellView(cellType: CellType, source: string)

  class Cell {
    var cellType: CellType
    var source: string

    constructor (cellType: CellType, source: string)
      ensures this.cellType == cellType && this.source == source
    {
      this.cellType := cellType;
      this.source := source;
    }

    /** The current value of this cell. */
    function View(): CellView
      reads this
    {
      CellView(cellType, source)
    }
  }

  class Notebook {
    var cells: seq<Cell>
    /** Everything else a notebook carries (its metadata), which the filter leaves alone. */
    var metadata: map<string, string>

    constructor (cells: seq<Cell>, metadata: map<string, string>)
      ensures this.cells == cells && this.metadata == metadata
    {
      this.cells := cells;
      this.metadata := metadata;
    }
  }

  /** The current values of a list of cells, position by position. */
  function Views(cells: seq<Cell>): seq<CellView>
    reads cells
  {
    seq(|cells|, i requires 0 <= i < |cells| reads cells => cells[i].View())
  }
}
