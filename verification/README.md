# jupymerge, modelled in Dafny

jupymerge copies cells from one Jupyter notebook into another. It has two
steps. First it selects cells from the source notebook's `cells` list. Then
it splices them into the destination's `cells` list at a chosen position.
This project models that pure core as functions over sequences and proves
what each step promises.

- `wrappers.dfy` (module `Wrappers`): `Option` and `Result`.
- `cells.dfy` (module `Cells`): these shared pieces:
  - a `Cell` (its `metadata.id` plus an opaque payload);
  - a `CellRef` (`ByIndex` or `ById`);
  - the `NotFound`/`UsageError` errors;
  - `PySlice`, Python's rule for normalising a slice bound;
  - `find_cell_index` as `IndexOfId`/`Resolve`;
  - `Splice`, and the sub-sequence vocabulary used in contracts.
- `inserter.dfy` (module `Inserter`): `insert_cells`. Its four optional
  placement arguments are kept as a record (`PlaceArgs`). The model follows
  the code's priority chain: top, bottom, before, after, then append.
- `selector.dfy` (module `Selector`): `extract_cells_from_source`. Its six
  optional criteria are kept as a record (`SelectArgs`). The priority chain
  is all, list, before, after, top n, bottom n, then a usage error.
- `coercion.dfy` (module `Coercion`): `convert_to_int_if_needed`. It turns a
  command-line token into a position or an id.
- `pipeline.dfy` (module `Pipeline`): `Merge`, the select-then-insert step of
  `extract_cells`, plus the worked scenarios.

A notebook is represented only by its `cells` sequence. Every other field of
the document passes through untouched.

In these places the code's behaviour may surprise; the model follows the
code:

- Entries of an explicit list that name no cell are silently ignored. They
  do not raise an error.
- `bottom_n = 0` selects every cell, because `cells[-0:]` is `cells[0:]`.
- Integer references are never bounds-checked. As in Python slicing, a
  negative position counts from the end, and the result is then clamped
  into 0..len. For example, placing before position -1 of x,y,z gives
  x,y,block,z, and an integer placement position at or past the end
  appends.
- An empty explicit list is "not given": selection falls through to the next
  criterion.
- Placement arguments may all be present at once. The first one in priority
  order wins.
- The code has separate branches for negative and non-negative `top_n`, and
  likewise for `bottom_n`. In both cases the two branches take the same
  slice, and the model has one branch each.

## Model

| member | source | states |
|---|---|---|
| Cells.IndexOfId | jupymerge.py:11-13 | The search returns the least position whose cell has the id, and every earlier cell has a different id. It returns nothing exactly when no cell has the id. |
| Cells.Resolve | jupymerge.py:6-13 | An integer reference resolves to itself, with no bounds check. A string reference resolves to the first cell carrying that id. Resolution fails with `NotFound(id)` exactly when no cell has the id, and only string references fail. |
| Cells.Splice | jupymerge.py:30-34 | Inserting a block at position p gives length \|dest\|+\|ins\|. The cells before p are unchanged. The block sits intact at p, and the rest of dest follows it. Cutting the block out gives dest back. The multiset of cells is the sum of the two inputs. |
| Inserter.InsertCells | jupymerge.py:16-43 | Every success is dest with the inserted block placed intact at one position, with dest's order kept. `place_at_top` gives ins+dest whatever else is given. `place_at_bottom` gives dest+ins unless top is set. No placement gives dest+ins. When `before` wins with a reference resolving to k, the block goes at PySlice(k); when `after` wins, at PySlice(k+1). PySlice is Python's slice-bound normalisation: a negative k counts from the end, then the bound is clamped into 0..\|dest\|. The call fails (with NotFound) exactly when the winning before/after reference is an id that names no destination cell. |
| Inserter.InsertBeforeFirst | jupymerge.py:28-34 | Placing before a reference that resolves to 0 gives ins+dest. |
| Inserter.InsertAfterLast | jupymerge.py:35-41 | Placing after a reference that resolves to \|dest\|-1 gives dest+ins. |
| Inserter.InsertIndexPastEnd | jupymerge.py:28-41 | An integer before/after reference k >= \|dest\| appends the block, with no error. |
| Inserter.InsertByIndex | jupymerge.py:28-41 | An integer before/after reference never fails. before k with 0<=k<\|dest\| gives dest[..k]+ins+dest[k..]. A negative k counts from the end, and k below -\|dest\| gives ins+dest. after k with -1<=k<\|dest\| gives dest[..k+1]+ins+dest[k+1..], and a negative k<-1 counts from the end. |
| Inserter.InsertBeforeId | jupymerge.py:28-34 | Placing before the first cell with id s (at position i) gives dest[..i]+ins+dest[i..]. That cell directly follows the block. |
| Inserter.InsertAfterId | jupymerge.py:35-41 | Placing after the first cell with id s (at position i) gives dest[..i+1]+ins+dest[i+1..]. The block starts directly after that cell. |
| Inserter.BeforeOverridesAfter | jupymerge.py:28-41 | When `before` wins, the `after` argument has no effect on the result. |
| Inserter.InsertLength | jupymerge.py:16-43 | Every successful placement has length \|dest\|+\|ins\|. Its multiset of cells is dest's plus the inserted ones. |
| Selector.Positions | jupymerge.py:67-72 | The positions kept by an explicit list are strictly increasing and in range. A position is kept exactly when its index or its cell's id appears in the list. |
| Selector.ExtractCells | jupymerge.py:56-90 | Every success is a sub-sequence of the source: source order, each position at most once. A UsageError occurs exactly when no criterion is given. NotFound occurs exactly when the winning before/after id names no cell. `all` returns the source unchanged. A non-empty list picks exactly the named cells in source order. before/after give the prefix/suffix at the Python-normalised bound. The top n and bottom n cases are stated per sign: top n>=0 gives the first min(n,\|cells\|) cells; top n<0 drops the last \|n\|; bottom n>0 gives the last min(n,\|cells\|); bottom 0 gives all; bottom n<0 drops the first \|n\|. |
| Selector.ExtractBeforeId | jupymerge.py:73-75 | Selecting before the first cell with id s (at position i) gives cells[..i]. No selected cell has id s. |
| Selector.ExtractAfterId | jupymerge.py:76-78 | Selecting after the first cell with id s (at position i) gives cells[i+1..]. |
| Selector.ExtractByIndex | jupymerge.py:73-78 | An integer before/after reference never fails. before k (k>=0) gives the first min(k,\|cells\|) cells. after k (k>=-1) gives the cells from min(k+1,\|cells\|) on. |
| Selector.UnknownRefIgnored | jupymerge.py:67-72 | Appending a list entry that names no cell leaves the kept positions unchanged. Such an entry is an out-of-range index or an unknown id. |
| Selector.ExtractIgnoresUnknownRef | jupymerge.py:67-72 | An explicit list with an extra entry that names no cell selects the same cells and does not fail. |
| Selector.EmptyListFallsThrough | jupymerge.py:67 | An empty explicit list behaves as if no list were given. |
| Selector.ExtractDrawsFromSource | jupymerge.py:56-90 | Every selected cell is a source cell, and a selection is never longer than the source. |
| Coercion.ConvertToIntIfNeeded | jupymerge.py:93-96 | None maps to None. A non-empty all-digit token maps to a non-negative position. Any other token, "" included, maps to an id equal to itself. An id produced here is never an all-digit string. |
| Coercion.DigitsValueShowNat | jupymerge.py:96 | Reading the decimal rendering of n gives n back. |
| Coercion.ConvertShowNat | jupymerge.py:93-96 | The decimal rendering of any n coerces to position n. |
| Coercion.LeadingZeroIgnored | jupymerge.py:96 | A leading zero does not change the number a digit string denotes. |
| Coercion.ConvertLeadingZero | jupymerge.py:93-96 | A token with an extra leading zero coerces to the same position. |
| Coercion.ConvertEmptyIsId | jupymerge.py:93-96 | The empty token becomes the id "", not a position. |
| Pipeline.Merge | jupymerge.py:116-132 | A failed selection aborts with its error. A success is the destination with the selected cells spliced in as one block. Every result cell comes from the source or the destination. The length is between \|dst\| and \|dst\|+\|src\|. After a successful selection, the result is exactly what placing the selected cells with the given placement arguments gives, so every placement guarantee of Inserter.InsertCells carries over. The merge then fails exactly when the winning placement reference is an id that names no destination cell. |
| Pipeline.MergeTopBottom | jupymerge.py:125-132 | With a good selection, `place_at_top` gives the selected cells followed by the destination. `place_at_bottom` (without top) gives the destination followed by the selected cells. |
| Pipeline.AllIntoEmpty | jupymerge.py:116-132 | Copying all cells to the bottom of an empty notebook yields exactly the source cells, in order. |
| Pipeline.ScenarioBeforeAfter | jupymerge.py:116-132 | Take cells a,b,c. Selecting before "c" gives a,b. Placing that after "x" in x,y gives x,a,b,y. |
| Pipeline.ScenarioNegativeIndex | jupymerge.py:28-34 | Placing a block before position -1 of x,y,z gives x,y,block,z. |
| Pipeline.ScenarioTopBottom | jupymerge.py:79-86 | On a,b,c,d: top 2 is a,b; bottom 2 is c,d; bottom 0 is all four; top -1 is a,b,c. |
| Pipeline.ScenarioList | jupymerge.py:67-72 | On a,b,c, the list ["c","zz",0] picks a,c in source order without failing. |

## Left out

- Loading and saving notebooks (`load_notebook`, `save_notebook`) are file and JSON I/O. A notebook is modelled as its cell sequence.
- The confirmation `print` in `extract_cells` is output only.
- `main` and its argparse setup are command-line glue. This includes the mutual exclusion of the selection flags, which argparse enforces. Only the pure token coercion is modelled.
- Cells without a `metadata.id`: Python raises KeyError when it reads one. In the model every cell has an id.
- Python raises StopIteration for a failed id lookup. The model returns `Err(NotFound(id))` instead.
- Python raises ValueError when no selection criterion is given. The model returns `Err(UsageError)` instead.
- Coercion.ConvertToIntIfNeeded: only ASCII digits '0'..'9' are modelled. Python's `str.isdigit` also accepts other Unicode digits, some of which `int()` then rejects.
- Python's `True == 1` equality in list membership is not modelled. The tagged `CellRef` keeps positions and ids apart.
- `all_cells` returns the source list object itself, not a copy. Aliasing has no meaning for immutable sequences.
