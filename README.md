# Exercise-cell filter for Jupyter notebooks

The repository ships a notebook preprocessor, `RemoveExerciceCells`
(preprocess.py). It runs before a lab notebook is exported. Its job is to
remove the exercise part and the empty code cells.

It walks the notebook's cells in order and builds a new list:

- a code cell whose source is empty is skipped;
- the first markdown cell whose source contains `"## Exerc"` ends the walk.
  Before stopping, that cell's source is cut down to the text before the
  marker, unless the marker is at position 0. Because `break` comes before
  `append`, the cell itself is not kept, and neither is anything after it;
- every other cell is appended, unchanged.

The new list then replaces `notebook.cells`. The same notebook object is
returned, with `resources` unchanged.

The model has four modules:

- `Strings` (strings.dfy): `Find`, with the meaning of Python's `str.find`:
  the lowest index of an occurrence, or -1 when there is none.
- `Notebooks` (notebooks.dfy): a `Cell` class with a cell type (markdown,
  code or other) and a mutable `source`. A `Notebook` class with a `cells`
  sequence and metadata. `CellView` is the value of a cell at one moment.
- `CellFilter` (cell_filter.dfy): what the filter computes, on values.
  `SelectedFrom` follows the loop. `Kept` gives the kept positions. `CutOff`
  gives the position of the marker cell. `CutSource` gives the marker cell's
  new source. `IsSubsequence` and `RemoveEmptyCode` are independent reference
  definitions. The lemmas connect these definitions.
- `Preprocessing` (preprocess.dfy): the `RemoveExerciceCells` class. Its
  `Preprocess` method is a `for` loop with `break` and `continue`, proved
  against `Selected`. It changes the notebook and the marker cell in place.
  `PreprocessTwice` runs it twice on one notebook.

The specification functions are generic in the element type. The same
`Selected` therefore describes both the list of cell objects and the list of
their values. The idempotence proof relies on this.

A notebook may hold the same `Cell` object twice. The postconditions of
`Preprocess` speak about objects, not positions. The marker object cannot
occur before the marker position, because an earlier occurrence would have
ended the walk itself. So the kept cells are never the cell whose source is
cut.

## Model

| member | source | states |
|---|---|---|
| Strings.Find | preprocess.py:9 | the result is -1 or an index at which the whole pattern fits inside the string |
| Strings.FindFromIsFirstOccurrence | preprocess.py:9 | searching from `from`: -1 exactly when no occurrence starts at or after `from`, otherwise the first such occurrence |
| Strings.FindIsFirstOccurrence | preprocess.py:9-10 | `find` is -1 exactly when the pattern occurs nowhere; otherwise the pattern occurs at the result, and at no smaller index |
| Strings.PrefixBeforeFirstOccurrence | preprocess.py:11-12 | the text before the first occurrence of a non-empty pattern does not contain the pattern |
| CellFilter.StartsExercises | preprocess.py:8-10 | no contract of its own: the stop test, a markdown cell whose `find` of the marker is not -1; its meaning is given by `StartsExercisesMeans` |
| CellFilter.StartsExercisesMeans | preprocess.py:8-10 | a cell stops the walk if and only if it is a markdown cell in whose source the marker occurs at some index |
| CellFilter.IsEmptyCode | preprocess.py:14-16 | no contract of its own: the skip test, a code cell whose source is empty (Python's `not cell.source` on a string); every lemma about `Selected` uses it as the cells that are dropped |
| CellFilter.CutOffFrom | preprocess.py:8-13 | the first position at or after `from` holding a markdown cell with the marker, or the length when there is none |
| CellFilter.CutOff | preprocess.py:8-13 | no cell before the cut-off is a markdown cell with the marker; the cell at the cut-off, if there is one, is such a cell |
| CellFilter.KeptFrom | preprocess.py:7-17 | the positions kept from `from` on increase, lie before the cut-off, and are exactly the positions before the cut-off that are not empty code cells |
| CellFilter.Kept | preprocess.py:7-17 | a position is kept if and only if it is before the first marker cell and does not hold an empty code cell; the kept positions increase |
| CellFilter.SelectedFrom | preprocess.py:7-17 | no contract of its own: the loop from position `from` on, written as recursion (stop at a marker cell, skip an empty code cell, append anything else); its meaning is given by `SelectedIsPick`, `SelectedIsCutThenCleaned` and `SelectedIsSubsequence`, and `Preprocess` is proved against it |
| CellFilter.Selected | preprocess.py:6-18 | no contract of its own: the list that becomes `notebook.cells`, which is `SelectedFrom` from position 0; its meaning is given by `SelectedIsPick`, `SelectedIsCutThenCleaned`, `SelectedIsSubsequence`, `SelectedIsClean` and `SelectedIsFixpoint` |
| CellFilter.CutSource | preprocess.py:9-12 | the new source is a prefix of the old one; when the marker is at i > 0 it is exactly the first i characters and holds no marker; when the marker is at 0 the source is unchanged |
| CellFilter.SelectedIsPick | preprocess.py:6-17 | the output is exactly the input's cells at the kept positions, in increasing position order |
| CellFilter.SelectedIsSubsequence | preprocess.py:6-18 | the output is a subsequence of the input, in the input's order, and is never longer |
| CellFilter.SelectedIsCutThenCleaned | preprocess.py:7-17 | reference description: cut the list just before the first marker cell, then delete the empty code cells |
| CellFilter.NoMarkerOnlyRemovesEmptyCode | preprocess.py:7-18 | if no markdown cell contains the marker, the output is the input with its empty code cells removed |
| CellFilter.SelectedIsClean | preprocess.py:8-17 | no cell of the output is an empty code cell or a markdown cell with the marker |
| CellFilter.MarkerCellDropped | preprocess.py:10-13 | the marker cell itself is not in the output, even when the same cell object occurs in the list more than once |
| CellFilter.NothingToCutInOutput | preprocess.py:8-13 | the output holds no marker cell, so the cut-off of a second pass is the end of the list and no source is cut again |
| CellFilter.SelectedIsFixpoint | preprocess.py:8-18 | filtering the output a second time gives the output again |
| Preprocessing.SourceAfter | preprocess.py:11-12 | no contract of its own: each cell's source after the walk, which is the cut source for the marker cell and the old source for every other cell; `Preprocess` states its result with it, and `KeptCellsKeepSource` and `CutSource` give its meaning |
| Preprocessing.KeptCellsKeepSource | preprocess.py:11-17 | a cell that ends up in the output keeps its old source, even when the list holds the marker cell's object twice |
| Preprocessing.RemoveExerciceCells.Preprocess | preprocess.py:5-19 | returns the same notebook and the same resources; the notebook's cells become the filtered list of the old cells; the kept cells keep their type and source; only the marker cell's source changes, to the cut source; the metadata is unchanged |
| Preprocessing.PreprocessTwice | preprocess.py:5-19 | running the preprocessor twice leaves what one run leaves: the same output cell list and output cell contents, the same type and source for every cell of the original list (only the marker cell's source is cut, once), and the same metadata |

## Left out

- The `nbconvert` `Preprocessor` base class, and loading and saving notebooks, are library code and I/O. The notebook is an in-memory object here.
- nbformat also allows `source` to be a list of lines. It is modelled only as a single string, which is what the `.find` call and the slice in preprocess.py assume.
- Cells carry more than a type and a source (metadata, outputs, execution counts). The filter never reads or writes those fields, so they are not modelled. The same goes for everything a notebook carries besides its cells, which is reduced to one `metadata` map.
- `resources` is an arbitrary value of a type parameter. The preprocessor returns it untouched.
- docs/.vuepress/config.js is not part of this model. It holds static site navigation data and a syntax-highlighting grammar made of JavaScript regular expressions, which an external highlighter interprets.
- The site's page-metadata hook (summary, title and description derivation) is not part of this model. No source file for it is available.
- Python strings can hold lone surrogate code points (JSON such as `"\ud800"` decodes to one), but a Dafny `char` is a Unicode scalar value. Sources with lone surrogates are not modelled. This hardly matters for `find` and slicing, which compare and cut code points one by one.
