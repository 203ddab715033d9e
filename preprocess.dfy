/** The `RemoveExerciceCells` notebook preprocessor: it removes the exercise
    part of a notebook and its empty code cells, changing the notebook in place. */
module Preprocessing {
  import opened Strings
  import opened Notebooks
  import opened CellFilter

  /** The source every cell of `cells` has after the filter ran over
      `cells`, whose views beforehand were `vs`: the marker cell, if there is
      one, has its source cut; every other cell keeps its source. */
  ghost function SourceAfter(cells: seq<Cell>, vs: seq<CellView>, c: Cell, before: string): string
    requires |cells| == |vs|
  {
    var k := CutOff(vs);
    if k < |cells| && c == cells[k] then CutSource(vs[k].source) else before
  }

  /** The cells the filter keeps are never the cell whose source is cut: they
      keep their source, even when the list holds the same object twice. */
  lemma KeptCellsKeepSource(cells: seq<Cell>, vs: seq<CellView>, c: Cell, before: string)
    requires |cells| == |vs|
    requires forall a, b :: 0 <= a < |cells| && 0 <= b < |cells| && cells[a] == cells[b] ==> vs[a] == vs[b]
    requires c in Selected(cells, vs)
    ensures SourceAfter(cells, vs, c, before) == before
  {
    if CutOff(vs) < |cells| {
      MarkerCellDropped(cells, vs);
    }
  }

  class RemoveExerciceCells {

    constructor ()
    {
    }

    /** Keeps the cells before the first markdown cell that mentions the
        exercise marker, except the code cells with empty source, and makes
        them the notebook's cell list. The marker cell itself is dropped;
        its source is cut to the text before the marker first. */
    method Preprocess<R>(notebook: Notebook, resources: R) returns (nb: Notebook, res: R)
      modifies notebook, set c | c in notebook.cells
      ensures nb == notebook && res == resources
      ensures notebook.cells == Selected(old(notebook.cells), old(Views(notebook.cells)))
      ensures Views(notebook.cells) == Selected(old(Views(notebook.cells)), old(Views(notebook.cells)))
      ensures forall c :: c in notebook.cells ==> c in old(notebook.cells)
      ensures notebook.metadata == old(notebook.metadata)
      ensures forall c :: c in old(notebook.cells) ==> c.cellType == old(c.cellType)
      ensures forall c :: c in old(notebook.cells) ==>
        c.source == SourceAfter(old(notebook.cells), old(Views(notebook.cells)), c, old(c.source))
    {
      var cells := notebook.cells;
      ghost var vs := Views(cells);
      ghost var executableViews: seq<CellView> := [];
      var executableCells: seq<Cell> := [];
      for i := 0 to |cells|
        modifies cells
        invariant notebook.cells == cells && notebook.metadata == old(notebook.metadata)
        invariant i <= CutOff(vs)
        invariant Selected(cells, vs) == executableCells + SelectedFrom(cells, vs, i)
        invariant Selected(vs, vs) == executableViews + SelectedFrom(vs, vs, i)
        invariant forall c :: c in executableCells ==> c in cells
        invariant |executableCells| == |executableViews|
        invariant forall j :: 0 <= j < |executableCells| ==> executableCells[j].View() == executableViews[j]
        invariant forall c :: c in executableCells ==> !StartsExercises(c.View())
        invariant forall c :: c in cells ==> c.cellType == old(c.cellType) && c.source == old(c.source)
      {
        var cell := cells[i];
        assert cell.View() == vs[i];
        ghost var before, beforeViews := executableCells, executableViews;
        if cell.cellType == Markdown {
          var exercIdx := Find(cell.source, ExerciseMarker);
          if exercIdx != -1 {
            assert CutOff(vs) == i;
            if exercIdx > 0 {
              cell.source := cell.source[..exercIdx];
            }
            assert cell.source == CutSource(vs[i].source);
            break;
          }
        } else if cell.cellType == Code {
          if cell.source == [] {
            SelectedFromStep(cells, vs, before, i);
            SelectedFromStep(vs, vs, beforeViews, i);
            continue;
          }
        }
        SelectedFromStep(cells, vs, before, i);
        SelectedFromStep(vs, vs, beforeViews, i);
        executableCells := executableCells + [cell];
        executableViews := executableViews + [vs[i]];
      }
      notebook.cells := executableCells;
      assert Views(executableCells) == executableViews;
      return notebook, resources;
    }
  }

  /** Running the preprocessor a second time on its own output leaves the
      notebook as running it once does: the same cell list, the same cell
      contents, the same sources for every cell of the original list, the
      same metadata. */
  method PreprocessTwice<R>(p: RemoveExerciceCells, notebook: Notebook, resources: R)
    modifies notebook, set c | c in notebook.cells
    ensures notebook.cells == Selected(old(notebook.cells), old(Views(notebook.cells)))
    ensures Views(notebook.cells) == Selected(old(Views(notebook.cells)), old(Views(notebook.cells)))
    ensures notebook.metadata == old(notebook.metadata)
    ensures forall c :: c in old(notebook.cells) ==> c.cellType == old(c.cellType)
    ensures forall c :: c in old(notebook.cells) ==>
      c.source == SourceAfter(old(notebook.cells), old(Views(notebook.cells)), c, old(c.source))
  {
    ghost var cells, vs := notebook.cells, Views(notebook.cells);
    var nb, res := p.Preprocess(notebook, resources);
    ghost var once, onceViews := notebook.cells, Views(notebook.cells);
    assert once == Selected(cells, vs) && onceViews == Selected(vs, vs);
    SelectedIsFixpoint(cells, vs);
    SelectedIsFixpoint(vs, vs);
    NothingToCutInOutput(vs);
    label Once:
    nb, res := p.Preprocess(nb, res);
    assert forall c :: c in once ==> c.source == old@Once(c.source);
  }
}
