# Deconvolution app: a Dafny model of the table store and the peak fit

The application loads a measured curve from a CSV file and breaks it down into
overlapping peaks (Gaussian and Fraser-Suzuki). It keeps a dictionary of
pandas tables: the loaded data, the table of peaks (`gauss`) and the table of
fit options (`options`). It lets the user sketch peaks with the mouse, tries
every combination of peak types with a least-squares fit, and writes the best
fit back into the tables.

This project models the data side of that application:

- `frames.dfy` (module `Frames`): the table type. A frame is a list of column
  names, a list of row labels and one column of cells per name. The module
  defines the pandas operations the core uses on it: `df[c] = v`, `df.at`,
  `df.iat`, `pd.concat(..., ignore_index=True)`, `drop` by row or by column,
  and `to_numeric(...).notna().all()`.
- `combinatorics.dfy`: `itertools.product` with the shape facts it has.
- `text.dfy`: the string functions the core calls, such as `strip`,
  `basename`, `splitext`, `str(n)`, `replace` and `in`, and the two ways text
  becomes a number: pandas' `to_numeric` and Python's `float`.
- `peak_math.dfy` (`src/math_operations.py`):
  - the single peak shapes and their sum `peaks`;
  - one fitting run per combination, built as a class that writes into a
    shared results dictionary;
  - `compute_best_peaks`, which chooses the record of least RMSE.
- `reconstruction.dfy`: the write-back loop that the three
  `add_reaction_cum(m)ulative_func` variants share. It writes one column per
  peak slot, then the running total.
- `csv_viewer.dfy` (`src/csv_viewer.py`): the viewer state and the file name
  derived from a chosen path.
- `table_model.dfy` and `legacy_table_model.dfy` (`src/pandas_model.py`,
  `pandas_model.py`): the Qt item models over one table.
- `table_store.dfy` (`src/table_manager.py`): the store of named tables, with
  the table on show and the one shown before it.
- `legacy_tables.dfy` (`table_manager.py`): the earlier manager. It keeps the
  loaded table in the viewer and a separate peak table, and the page of a
  stacked widget chooses which of the two it changes.
- `event_handler.dfy` (`src/event_handler.py`): the button, click and mouse
  handlers, working on the earlier manager.
- `data_handler.dfy` (`src/sub_handlers/data_handler.py`):
  - the initial parameters;
  - the write-back of fitted values;
  - the split of the coefficient vector;
  - the combinations;
  - `calculate_bounds`;
  - `get_coeffs_and_bounds`.
- `calculation_dialog.dfy` (`src/sub_handlers/calculation_dialog_handler.py`):
  - the constraints each peak type has;
  - the initial values of the constraint fields;
  - the selected types and their product;
  - the flat bound lists.

Objects whose fields the source updates become classes with `modifies`
clauses: the viewer, the item models, both table managers, the event handler,
the results dictionary and the fitting run. Loops in the source become methods
with loops, proved against a specification function. Pure computations become
functions and lemmas.

Some code cannot be interpreted and is taken as a parameter instead:

- the peak shape formulas, `np.sqrt` and `curve_fit`: these come in as
  `PeakMath.Kernels` and as an oracle `fit`;
- `np.gradient`;
- the dialogs;
- the widgets, which are replaced by the values they hold.

## Model

| member | source | states |
|---|---|---|
| PeakMath.Clamp | src/math_operations.py:66 | the height used is `max(0, a0)`: never negative, at least `a0`, and either `a0` or 0 |
| PeakMath.GaussianAt | src/math_operations.py:64-67 | a height that is not positive gives 0; otherwise the value is the height times the unit Gaussian shape |
| PeakMath.FraserSuzukiAt | src/math_operations.py:75-79 | a NaN value of the shape is replaced by 0; otherwise the value is `a0` times the shape |
| PeakMath.Gaussian | src/math_operations.py:64-67 | the vector form has one entry per x, and each entry is `GaussianAt` of that x |
| PeakMath.FraserSuzuki | src/math_operations.py:75-79 | the vector form has one entry per x, and each entry is `FraserSuzukiAt` of that x |
| PeakMath.PeaksSpec | src/math_operations.py:82-92 | at every x, the sum over all slots: a Gaussian for tag "gauss", and Fraser-Suzuki with the slot's coefficient for any other tag. With no slots the result is all zeros |
| PeakMath.Peaks | src/math_operations.py:82-92 | the loop that starts from zeros and adds one shape vector per slot computes `PeaksSpec` |
| PeakMath.PeaksSingle | src/math_operations.py:82-92 | a single slot contributes exactly its own Gaussian or Fraser-Suzuki vector |
| PeakMath.PeaksSplit | src/math_operations.py:84-91 | `peaks` over two slot lists laid end to end is the elementwise sum of `peaks` over each list |
| PeakMath.UnknownTagIsFraser | src/math_operations.py:88-91 | replacing every tag other than "gauss" by "fraser" leaves `peaks` unchanged |
| PeakMath.NormalTag | src/math_operations.py:88-91 | every tag maps to "gauss" or "fraser", and it maps to "gauss" exactly when it is "gauss" |
| PeakMath.DefaultBounds | src/math_operations.py:108-111 | 3n lower bounds equal to 0 and 3n upper bounds equal to `+inf` |
| PeakMath.MathCombinationsShape | src/math_operations.py:101-102 | there are 2^n combinations and no two are equal. A tuple is a combination exactly when it has length n and every entry is one of `MATH_PEAK_TYPES` (gauss, fraser) |
| PeakMath.SquaredError | src/math_operations.py:36 | the sum of squared residuals is never negative |
| PeakMath.FitOutcome | src/math_operations.py:27-49 | a recorded entry carries the run's own combination and the parameters the fit returned. It is None when the fit or `peaks` raises |
| PeakMath.Store | src/math_operations.py:42 | after `results_dict[combination] = entry` the entry is present, and nothing else is new. Entries under other combinations are kept |
| PeakMath.ResultsDict.Put | src/math_operations.py:42 | the shared dictionary becomes `Store(old, e)` |
| PeakMath.ComputeCombinationThread.Run | src/math_operations.py:27-49 | `result` is the run's outcome. On success the entry is stored in the shared dictionary; on a raise the dictionary is unchanged |
| PeakMath.RecordedSound | src/math_operations.py:117-125 | every record after the runs belongs to a tried combination and holds that combination's own outcome |
| PeakMath.RecordedComplete | src/math_operations.py:117-125 | every tried combination whose fit succeeds is recorded, and each record comes from a fit that succeeded |
| PeakMath.MinIndex | src/math_operations.py:132 | the position returned has the least RMSE, and every earlier position has a strictly larger one (the first minimum, like `min`) |
| PeakMath.Select | src/math_operations.py:127-134 | the result is None exactly when there are no records; otherwise it is a record of least RMSE |
| PeakMath.ComputeBestPeaks | src/math_operations.py:95-139 | the result is the selection over the records of all runs over {gauss, fraser}^n. It is None exactly when every run raised; otherwise its RMSE is no larger than that of any combination that fitted |
| PeakMath.BestOfRecords | src/math_operations.py:127-134 | the best record is the outcome of a tried combination, and no successful combination has a smaller RMSE |
| Reconstruction.ReactionColumnName | src/table_manager.py:159 | the name is `y`, then `_reaction_`, then the decimal slot number |
| Reconstruction.ReactionColumnNamesDistinct | src/table_manager.py:159 | different slots write different columns |
| Reconstruction.TotalNameIsNoReactionName | src/table_manager.py:159-167 | the cumulative column never collides with a per-slot column |
| Reconstruction.SlotCurve | src/table_manager.py:160-163 | slot i's curve is its Gaussian, or its Fraser-Suzuki peak with coefficient -1, at every x |
| Reconstruction.Total | src/table_manager.py:165 | the running total has one entry per x |
| Reconstruction.WriteBack | src/table_manager.py:153-168 | the loop produces `Reconstructed` (slot columns, then `y + suffix`) and the running total `Total` |
| Reconstruction.TotalIsRunningSum | src/table_manager.py:165 | the total equals the initial vector plus `peaks` with coefficient -1 for every slot |
| Reconstruction.SlotsWrittenStep | src/table_manager.py:154-164 | writing slots 0..i is writing slots 0..i-1 and then column `y_reaction_i` with slot i's curve |
| Reconstruction.SlotsWrittenSlots | src/table_manager.py:154-164 | after slots 0..n-1 are written, each slot column holds its curve |
| Reconstruction.SlotsWrittenOthers | src/table_manager.py:154-164 | writing the slots leaves every column outside `SlotNames` with the cells it had |
| Reconstruction.SlotColumnsSumIsPeaks | src/table_manager.py:154-165 | at every row, the sum of the slot columns is `peaks` over those slots |
| Reconstruction.ReconstructedSlots | src/table_manager.py:154-164 | after the write-back, column `y_reaction_i` holds slot i's curve for every slot |
| Reconstruction.ReconstructedTotal | src/table_manager.py:165-168 | the cumulative column holds, at every row, the initial value plus the sum of the slot columns |
| Reconstruction.ReconstructedOthers | src/table_manager.py:153-168 | every column that is neither a slot column (`SlotNames`) nor `y + suffix` keeps its cells |
| Reconstruction.TotalColumnIsSum | src/table_manager.py:165-168 | a column holding the running total is, at every row, the initial value plus the sum of the slot columns |
| Frames.SetColumn | src/table_manager.py:109 | `df[c] = v` with a list of the frame's length replaces an existing column in place or appends a new last column, and the other columns keep their cells |
| Frames.AssignColumn | src/table_manager.py:109 | `df[c] = v` on a frame with rows is `SetColumn`; on a frame without rows the list sets the number of rows, the index becomes 0..n-1 and every other column holds missing cells |
| Frames.Unfilled | src/table_manager.py:109 | the frame with the given columns and n rows of missing cells that pandas builds before the assignment into a frame without rows |
| Frames.SetColumnsOthers | src/table_manager.py:159-164 | assigning a list of columns in turn leaves every column not in the list with its cells |
| Frames.SetColumnsWrites | src/table_manager.py:159-164 | after assigning a list of distinct columns in turn, each named column holds the values it was given |
| Frames.Concat | src/table_manager.py:119 | `pd.concat([f, g], ignore_index=True)`: the rows of f then those of g, relabelled 0..n-1, with the union of the columns in order and missing cells where a side lacks a column |
| Frames.DropRowAt | src/table_manager.py:187 | dropping a row keeps the columns; every column and the labels lose exactly that position |
| Frames.DropColumnAt | src/table_manager.py:193-194 | the dropped column is gone, and the others keep their order and their cells |
| Frames.PyPos | src/table_manager.py:187 | a Python index: a negative one counts from the end |
| Frames.SetAt | src/sub_handlers/data_handler.py:94-100 | `df.at[key, name] = v` sets that one cell, adding the row or the column when it is missing, and leaves every other existing cell as it was |
| Frames.SetRowsEffect | src/sub_handlers/data_handler.py:86-100 | after the assignment rows, row r holds its assigned values, and rows with other labels keep every cell |
| Frames.FlattenTriples | src/sub_handlers/data_handler.py:72-78 | three cells per row, in row order: the three named columns of that row. A missing column is a KeyError exactly when the table has a row |
| Frames.FloatCell | src/table_manager.py:178 | `float(cell)`: a number or a missing cell is kept; a text cell becomes the number or the NaN `float` reads from it, and fails when `float` raises or gives an infinity |
| Frames.FloatCellReadsLiteral | src/table_manager.py:178 | a text cell holding a float literal, with whitespace around it, reads as the literal's value |
| Frames.WriteRows | src/sub_handlers/data_handler.py:86-100 | the loop over rows computes `SetRows` |
| Frames.Reals | src/sub_handlers/data_handler.py:192-194 | `.values` of an all-number column, with one real per cell |
| Combinatorics.RepeatProduct | src/sub_handlers/data_handler.py:137 | `product(c, repeat=n)` has \|c\|^n tuples: exactly those of length n over c |
| Combinatorics.ProductMember | src/sub_handlers/calculation_dialog_handler.py:206 | a tuple is in `product(*choices)` exactly when it takes one allowed choice at every position |
| Combinatorics.ProductDistinct | src/sub_handlers/calculation_dialog_handler.py:206 | when no choice list repeats an entry, no tuple is produced twice |
| Text.Strip | src/csv_viewer.py:26 | `strip()` keeps a contiguous middle part of the text; everything removed is whitespace and the result does not start or end with whitespace |
| Text.StripIdempotent | src/csv_viewer.py:26 | stripping twice is stripping once |
| Text.Basename | src/csv_viewer.py:24 | the text after the last `/`: a suffix of the path without `/` |
| Text.SplitExtRoot | src/csv_viewer.py:25 | the root from `splitext` is a prefix of the name, cut before the last dot unless only dots precede that dot |
| Text.ReplaceChar | src/pandas_model.py:121 | every `,` becomes `.`, other characters are kept, and no `,` is left |
| Text.NatToStringInjective | src/table_manager.py:159 | different numbers have different decimal forms |
| Text.PyFloat | src/table_manager.py:178 | `float(s)` succeeds exactly when the stripped text spells NaN or an infinity, or is a float literal. A finite result is the literal's value, and an infinity is negative exactly after a `-` |
| Text.PyFloatOfNat | src/table_manager.py:146 | the decimal text of a natural number is a float literal worth that number; `to_numeric` reads it and `float` gives the number back |
| Text.UnpaddedLiteral | src/table_manager.py:146 | a float literal on its own is a number to `to_numeric`, and `float` gives its value |
| Text.ExponentLiteral | src/table_manager.py:146 | `<n>e<k>` is a float literal worth n·10^k |
| Text.NegativeExponentLiteral | src/table_manager.py:146 | `<n>e-<k>` is a float literal worth n/10^k |
| Text.NegatedLiteral | src/table_manager.py:146 | a `-` in front of an unsigned literal gives a literal of the negated value |
| Text.LiteralIsNoSpelling | src/table_manager.py:178 | no float literal is also a NaN or infinity spelling |
| Text.PandasReadsPaddedLiteral | src/table_manager.py:146 | a float literal with ASCII blanks before and after it is a number to `to_numeric` |
| Text.PyFloatReadsPaddedLiteral | src/table_manager.py:178 | `float` of a float literal with whitespace before and after it is the literal's value |
| Viewer.FileNameFromPath | src/csv_viewer.py:24-26 | the table name derived from a path has no `/`, is stripped, and is no longer than the base name |
| Viewer.CsvViewer.constructor | src/csv_viewer.py:8-11 | an empty table and no file name |
| Viewer.CsvViewer.GetCsv | src/csv_viewer.py:18-26 | a cancelled dialog changes nothing; otherwise the table read and the derived name are stored |
| Viewer.CsvViewer.ExportCsv | src/csv_viewer.py:42-46 | the chosen path, even an empty one, becomes the file name; the table is written exactly when the path is nonempty |
| TableModel.SetIat | src/pandas_model.py:99-100 | `df.iat[r, c] = v` at Python positions changes exactly that cell |
| TableModel.PandasModel.constructor | src/pandas_model.py:14-23 | the model shows the given table |
| TableModel.PandasModel.RowCount | src/pandas_model.py:25-35 | the number of rows |
| TableModel.PandasModel.ColumnCount | src/pandas_model.py:37-47 | the number of columns |
| TableModel.PandasModel.Data | src/pandas_model.py:49-63 | a cell exactly for a valid index and the display role, and that cell is the one at the index |
| TableModel.PandasModel.HeaderData | src/pandas_model.py:65-82 | a header exactly for the display role: the column name across the top, the row label down the side |
| TableModel.PandasModel.SetDataVerbatim | src/pandas_model.py:84-103 | succeeds exactly for the edit role and then stores the value unchanged at the index; otherwise the table is unchanged |
| TableModel.PandasModel.SetData | src/pandas_model.py:105-126 | succeeds exactly for the edit role and then stores the text with `,` turned into `.` at the index; otherwise the table is unchanged |
| LegacyTableModel.PandasModel.constructor | pandas_model.py:6-8 | the model shows the given table |
| LegacyTableModel.PandasModel.RowCount | pandas_model.py:10-11 | the number of rows |
| LegacyTableModel.PandasModel.ColumnCount | pandas_model.py:13-14 | the number of columns |
| LegacyTableModel.PandasModel.Data | pandas_model.py:16-20 | a cell exactly for a valid index and the display role |
| LegacyTableModel.PandasModel.HeaderData | pandas_model.py:22-25 | a column name exactly for the horizontal header and the display role |
| LegacyTableModel.PandasModel.SetData | pandas_model.py:27-35 | succeeds exactly for a valid index, the edit role and a row inside the table, and then stores the value at that cell; otherwise the table is unchanged |
| TableStore.ReactionName | src/table_manager.py:173 | `Reaction_` followed by decimal digits |
| TableStore.ReactionNameInjective | src/table_manager.py:173 | different row counts give different reaction names |
| TableStore.GaussianRow | src/table_manager.py:173-179 | a one-row table with the columns reaction, height, center, width, type and coeff_1 |
| TableStore.GaussianRowCells | src/table_manager.py:173-179 | the cells of that row, column by column |
| TableStore.GaussianRowAppended | src/table_manager.py:180 | the peak table gains one row, named after the prior row count, holding the given values. The earlier rows keep their cells |
| TableStore.GaussianError | src/table_manager.py:172-178 | there is no error exactly when the peak and options tables exist and the options table has one `coeff_1` cell that `float` reads, as a number or as NaN |
| TableStore.WithGaussian | src/table_manager.py:172-180 | the peak table after the append is well formed |
| TableStore.TableManager.constructor | src/table_manager.py:26-59 | one stored table per given name, and nothing on show |
| TableStore.TableManager.GetData | src/table_manager.py:64-68 | the stored table exactly for a known name; an unknown name is an error |
| TableStore.TableManager.UpdateTableData | src/table_manager.py:71-80 | a new name is appended to the known names, and the table is stored under the name |
| TableStore.TableManager.FillTable | src/table_manager.py:83-98 | an unknown name is an error; otherwise the table shown before becomes the buffer and the named one is shown |
| TableStore.TableManager.AddColumn | src/table_manager.py:101-111 | an unknown table or an existing column is an error, and so is a list whose length differs from a table that has rows; the data is then unchanged. Otherwise the table becomes `AssignColumn` of the list (on a table without rows the list sets the row count) and the other tables are kept |
| TableStore.TableManager.AddRow | src/table_manager.py:115-120 | an unknown table is an error; otherwise the table becomes the concatenation and is then shown |
| TableStore.TableManager.GetColumnData | src/table_manager.py:139-150 | the column exactly when the table and the column exist and `to_numeric` reads every cell as a number: a number, a float literal with optional sign, exponent and blanks around it, or a signed infinity. The errors are distinguished |
| TableStore.TableManager.AddReactionCumulativeFunc | src/table_manager.py:153-168 | the file's table becomes `Reconstructed` with suffix `_cumulative`, and `total` is the running total; a missing file name is an error |
| TableStore.TableManager.AddGaussianToTable | src/table_manager.py:171-183 | it fails exactly when a table or `coeff_1` is missing or `float` cannot read the `coeff_1` cell; otherwise the peak table becomes `WithGaussian`, whose new row carries `float` of that cell, and is shown |
| TableStore.TableManager.DeleteRow | src/table_manager.py:186-189 | for a Python row position inside the table on show, that row is dropped; otherwise nothing changes |
| TableStore.TableManager.DeleteColumn | src/table_manager.py:192-196 | for a Python column position inside the table on show, that column is dropped; otherwise nothing changes |
| LegacyTables.PeakRow | table_manager.py:125-130 | a one-row table with the columns Reaction, Height, Center, Width and Type |
| LegacyTables.PeakRowCells | table_manager.py:125-130 | the cells of that row, column by column |
| LegacyTables.PeakRowAppended | table_manager.py:133 | one more row named `Reaction_<n+1>` holding the given height, center, width and "gauss"; the earlier rows keep their cells |
| LegacyTables.TableManager.constructor | table_manager.py:9-37 | an empty peak table with the columns Reaction, Height, Center and Width |
| LegacyTables.TableManager.GetColumnData | table_manager.py:84-90 | a column of the loaded table exactly when it exists and `to_numeric` reads every cell as a number, in the same sense. The errors are distinguished |
| LegacyTables.TableManager.AddReactionCummulativeFunc | table_manager.py:92-107 | the loaded table becomes `Reconstructed` with suffix `_cummulative`, and `total` is the running total |
| LegacyTables.TableManager.AddGaussianToTable | table_manager.py:109-137 | the peak table becomes its concatenation with `PeakRow` |
| LegacyTables.TableManager.DeleteRow | table_manager.py:139-148 | page 0 drops a row of the loaded table and page 1 a row of the peak table, and the other table is untouched; any other page changes nothing |
| LegacyTables.TableManager.DeleteColumn | table_manager.py:150-162 | page 0 drops a column of the loaded table and page 1 a column of the peak table; any other page changes nothing |
| Events.Negated | src/math_operations.py:71 | each entry is the negation of the input's entry |
| Events.DiffColumnName | src/event_handler.py:21 | `y` followed by `_diff` |
| Events.SketchWidth | src/event_handler.py:99 | `2 * abs(release - press)`: never negative, and 0 exactly when the two points coincide |
| Events.SketchWidthSymmetric | src/event_handler.py:99 | dragging in either direction sketches the same width |
| Events.PeakAssign | src/event_handler.py:39-46 | four writes per slot: Height, Center, Width and Type |
| Events.PeakAssigns | src/event_handler.py:39-46 | one row of writes per slot of the combination |
| Events.UpdatedPeakRows | src/event_handler.py:39-46 | row i holds `bestParams[3i..3i+2]` as height, center and width, and `bestCombination[i]` as type |
| Events.UpdatedPeakCell | src/event_handler.py:43-46 | the k-th write of slot i lands in row i |
| Events.UpdatedPeakRowsKeepOthers | src/event_handler.py:39-46 | rows beyond the combination keep every cell |
| Events.PeakAssignsDistinct | src/event_handler.py:43-46 | no row writes the same column twice |
| Events.EventHandler.constructor | src/event_handler.py:6-11 | the handler shares the manager's viewer, and no press has been seen |
| Events.EventHandler.GetInitParams | src/event_handler.py:32-36 | three cells per peak row, in row order: Height, Center and Width. A missing column is a KeyError exactly when the table has a row, and a table without rows gives no parameters |
| Events.EventHandler.UpdateGaussianData | src/event_handler.py:38-46 | the peak table becomes `SetRows` of the slot writes |
| Events.EventHandler.AddReactionCummulativeFunc | src/event_handler.py:48-63 | the loaded table becomes `Reconstructed` with suffix `_cummulative`, and `total` is the running total |
| Events.EventHandler.HandleTableClicked | src/event_handler.py:90-94 | exactly Ctrl deletes the clicked row and exactly Alt the clicked column, on the current page; other modifiers change nothing |
| Events.EventHandler.OnPress | src/event_handler.py:110-113 | the press point is remembered |
| Events.EventHandler.OnRelease | src/event_handler.py:96-108 | without a press, with an unreadable x column, an empty one or one holding text (the TypeError of `min`, `max` or `np.linspace`), nothing is added. Otherwise a Gaussian row with the press height and centre and `SketchWidth` is added |
| Events.EventHandler.AddDiffButtonPushed | src/event_handler.py:13-30 | a missing column is an error, and so are two numeric columns of fewer than two rows; otherwise column `y_diff` holds the negated gradient and the other columns are kept |
| DataHandling.WrittenColumnsDistinct | src/sub_handlers/data_handler.py:94-100 | the seven columns written per row are distinct |
| DataHandling.GetInitParams | src/sub_handlers/data_handler.py:66-78 | three cells per row of the peak table, in row order: height, center and width. An unknown peak table is an error; a missing column is a KeyError exactly when the table has a row |
| DataHandling.RowAssign | src/sub_handlers/data_handler.py:86-100 | row i writes height, center, width, type, coeff_a, coeff_s1 and coeff_s2 in that order |
| DataHandling.RowAssigns | src/sub_handlers/data_handler.py:86-100 | one row of writes per slot of the combination |
| DataHandling.UpdateGaussianData | src/sub_handlers/data_handler.py:80-102 | a peak table the store does not know is an error and leaves the store unchanged; otherwise the stored peak table is written in place to `SetRows` of the slot writes and returned. Nothing else in the store changes |
| DataHandling.RowAssignsDistinct | src/sub_handlers/data_handler.py:94-100 | no row writes the same column twice |
| DataHandling.UpdatedCell | src/sub_handlers/data_handler.py:94-100 | the k-th write of slot i lands in row i |
| DataHandling.UpdatedRows | src/sub_handlers/data_handler.py:86-100 | row i holds the fitted triple, the type and the i-th entry of each coefficient list |
| DataHandling.UpdatedRowsKeepOthers | src/sub_handlers/data_handler.py:86-100 | rows beyond the combination keep every cell |
| DataHandling.SplitCoefficients | src/sub_handlers/data_handler.py:107-110 | with n = len/3, the parts have lengths n, n and the rest, and laid end to end they give the input back |
| DataHandling.SplitCoefficientsPositions | src/sub_handlers/data_handler.py:107-110 | every entry lies in exactly the part its position says |
| DataHandling.DataCombinationsShape | src/sub_handlers/data_handler.py:136-137 | there are 3^n combinations and no two are equal. A tuple is a combination exactly when it has length n over {gauss, fraser, ads} |
| DataHandling.CalculateBounds | src/sub_handlers/data_handler.py:139-159 | lower bounds are 0·h, 0.8·c and 0.6·w per group of three; upper bounds are 1.5·h, 1.2·c and 1.4·w |
| DataHandling.BoundsOrdered | src/sub_handlers/data_handler.py:139-159 | every lower bound is at most its upper bound exactly when no initial parameter is negative |
| DataHandling.CoeffsError | src/sub_handlers/data_handler.py:188-210 | no error exactly when both tables, the three coefficient columns and the six constraint columns exist and the options table has a row; the error is the first the source meets in its order of access |
| DataHandling.EmptyOptionsIndexError | src/sub_handlers/data_handler.py:197-200 | with the peak table complete and `a_bottom_constraint` present, an options table without rows raises IndexError, whichever other constraint columns are missing |
| DataHandling.GetCoeffsAndBounds | src/sub_handlers/data_handler.py:188-220 | it fails exactly when `CoeffsError` names an error, with that error: a table, a column or the first options row is missing. Otherwise it returns the a, s1 and s2 columns in that order, with each entry's (bottom, top) pair of its kind beside it |
| DataHandling.CoeffsLaidOut | src/sub_handlers/data_handler.py:212-218 | the loop's concatenation is the three columns in order, and entry j's pair is the pair of kind j / rows |
| DataHandling.SpreadUniform | src/sub_handlers/data_handler.py:216-218 | when every part has n entries, entry j of the spread pairs is the pair of part j / n |
| CalculationDialog.GetConstraints | src/sub_handlers/calculation_dialog_handler.py:82-88 | one pair for fraser, two for ads, none for any other type |
| CalculationDialog.BoundsKeysAgree | src/sub_handlers/calculation_dialog_handler.py:219-223 | `bounds_keys` lists exactly the types with constraints, with the same pairs as `get_constraints` |
| CalculationDialog.ConstraintColumns | src/sub_handlers/calculation_dialog_handler.py:68-75 | every constraint a type has maps to a coefficient column, and both ends of a pair share that column |
| CalculationDialog.GetInitialValues | src/sub_handlers/calculation_dialog_handler.py:90-114 | the field is left empty exactly in calibration without a row or column table, for a name the calibration values do not list |
| CalculationDialog.CalibrationWithRowAgrees | src/sub_handlers/calculation_dialog_handler.py:93-97 | with a row and a column table, the calibration flag changes nothing |
| CalculationDialog.EmptyRowStartsAtZero | src/sub_handlers/calculation_dialog_handler.py:111-112 | an empty row starts every field at 0 |
| CalculationDialog.BottomNames | src/sub_handlers/calculation_dialog_handler.py:95 | the three bottom constraint names contain "bottom" |
| CalculationDialog.TopNames | src/sub_handlers/calculation_dialog_handler.py:95 | the three top constraint names do not contain "bottom" |
| CalculationDialog.InitialPairOrdered | src/sub_handlers/calculation_dialog_handler.py:110-114 | for every pair a type carries, bottom starts at 0.8·base and top at 1.2·base; they are in order exactly when the base is not negative |
| CalculationDialog.PairOrdered | src/sub_handlers/calculation_dialog_handler.py:111-112 | the same holds for any bottom/top names that read the same column |
| CalculationDialog.CalibrationPairOrdered | src/sub_handlers/calculation_dialog_handler.py:99-107 | in calibration without a row, every pair starts strictly in order |
| CalculationDialog.SelectedTypes | src/sub_handlers/calculation_dialog_handler.py:195 | a type is selected exactly when its box is checked, in check-box order |
| CalculationDialog.SelectedTypesDistinct | src/sub_handlers/calculation_dialog_handler.py:195 | no type is selected twice |
| CalculationDialog.SelectedLists | src/sub_handlers/calculation_dialog_handler.py:205 | one list per reaction, in reaction order |
| CalculationDialog.ExtractInputValues | src/sub_handlers/calculation_dialog_handler.py:190-213 | the selection has exactly the reactions as keys |
| CalculationDialog.ExtractedCombinations | src/sub_handlers/calculation_dialog_handler.py:205-206 | there are as many combinations as the product of the list sizes, and no two are equal. A tuple is a combination exactly when it picks a checked type for every reaction in order |
| CalculationDialog.ExtractBoundsSelectedCombinations | src/sub_handlers/calculation_dialog_handler.py:215-233 | the nested loops compute `SelectedBounds`: reaction by reaction and type by type, the (bottom, top) values of each constraint pair |
| CalculationDialog.AppendFuncs | src/sub_handlers/calculation_dialog_handler.py:226-230 | the loop over one reaction's types appends `FuncsBounds`: the pairs of each type that has constraints, type by type |
| CalculationDialog.AppendPairs | src/sub_handlers/calculation_dialog_handler.py:228-230 | the inner loop appends the values of each name pair, in order |
| CalculationDialog.SelectedBoundsLength | src/sub_handlers/calculation_dialog_handler.py:215-233 | one pair per selected fraser, two per selected ads and none per gauss |
| CalculationDialog.ExtractPeaksBounds | src/sub_handlers/calculation_dialog_handler.py:235-245 | the lower list and the upper list are the two ends of the flat pairs, position by position |
| CalculationDialog.FlatPairsUniform | src/sub_handlers/calculation_dialog_handler.py:239-243 | when every reaction has n parameters, reaction i fills positions i·n to (i+1)·n in parameter order |

## Left out

- The shape formulas, `np.exp`, `np.log`, `np.sqrt`, `np.mean` and `curve_fit` are parameters (`Kernels`, the `fit` oracle). Floating point, NaN propagation and the non-associativity of float sums are not modelled: numbers are reals.
- `compute_derivative` (`np.gradient`) is a parameter of `AddDiffButtonPushed`.
- `Events.EventHandler.AddDiffButtonPushed` fails with NotANumber on a missing cell, where `np.gradient` would carry NaN into the new column: the gradient parameter works on reals, which hold no NaN. Its LengthMismatch branch stands for a gradient parameter that returns a vector of the wrong length, which `np.gradient` never does.
- `compute_best_peaks` starts the runs as threads and waits for them. They are modelled as running one after another, so the lock and the interleaving are not modelled; the dictionary order is the order of completion in that sequence.
- `handle_thread_finished` is not called by the core and is not modelled.
- The Qt widgets are left out. For the UI-building code (`create_dialog`, `create_*`, `set_calibration`, `fill_combo_boxes`, `fillMainTable`, `fillGaussTable`, `fill_main_table`) only `create_checkboxes`' initial state (`INITIAL_CHECKBOXES`) and the tables it reads are kept.
- The request/reply signals and `wait_for_data`, which waits until a reply arrives, are plain calls. A missing table, which makes the source wait for ever, is an error result here.
- CSV reading, encoding detection, CSV writing and the file dialogs are left out. The chosen path and the table read are parameters.
- Logging and console messages are left out.
- `compute_peaks_button_pushed` in both handlers is not modelled as one operation. Its calls do not match the signatures they call: `compute_best_peaks` is called with 11 arguments and the signal that carries its result has 6 values. Its parts are modelled separately: the split, the combinations, `calculate_bounds`, `update_gaussian_data` and the write-back.
- `event_handler.py` reads `table_manager.gaussian_data` with the columns `Height`, `Center` and `Width`, and calls `get_column_data` with a column name only. Both belong to the root `TableManager`, so the handler is modelled against it. The handler's `delete_row` and `delete_column` are defined only in `src/table_manager.py`; the root manager's deletions are `deleteRow` and `deleteColumn`, and the model calls those. The stacked widget's current page is a parameter.
- `on_release` draws a preview curve with `linspace` over the x column; the plot is left out. An `xdata` of None (a release outside the axes) is not modelled.
- `TableStore.TableManager.AddGaussianToTable`: the source gives the table view a model built from the table before the append, and the model store is not modelled.
- The `.at` enlargement of a frame adds the new column with missing values; pandas' dtype changes are not modelled.
- `DataHandling.CalculateBounds` requires the parameter count to be a multiple of 3. On other lengths the source raises IndexError.
- `CalculationDialog.ExtractBoundsSelectedCombinations` requires `Covered`, that the bounds of every selected type with constraints were entered. Otherwise the source raises KeyError.
- `DataHandling.GetCoeffsAndBounds` requires the coefficient and constraint cells to hold numbers when the tables and columns exist (`CoeffCellsNumeric`). The source passes other cells on: `float()` reads numeric text, and a missing cell is a NaN that `np.concatenate` keeps. The model excludes them because its vectors hold reals, which have no NaN.
- `CalculationDialog.GetInitialValues` requires that the base value can be read (`BaseReadable`). A missing column raises KeyError in the source, and a text `float` cannot read raises ValueError. A base that is NaN (a missing cell or the text "nan") is excluded too, although the source passes it on and shows "nan": the model's values are reals. The result is a number rather than its `str()`.
- `DataHandling.UpdateGaussianData` requires at least three parameters and one entry of each coefficient list per slot. Otherwise the source raises IndexError.
- `DataHandling.SplitCoefficients` does not model `round(coeff, 5)`, which is only logged.
- `CalculationDialog.ExtractInputValues` takes the field texts as the numbers they parse to, so `float()` of text is not modelled. The inputs arrive as reals, and the `coeffs_bounds` and `peaks_bounds` maps are passed through.
- `CalculationDialog.ExtractBoundsSelectedCombinations` and `CalculationDialog.ExtractPeaksBounds`: the Python dicts they iterate are sequences of (key, value) pairs in insertion order.
- The `reaction_row` the dialog receives (`gauss_data[gauss_data.reaction == r]`) is filtered by widget code and is a parameter.
- Aliasing is not modelled:
  - `__init__` keeps the caller's list of table names, which `update_table_data` then extends. Here the store owns the list.
  - The cumulative array is updated in place in the caller. Here it comes back as the `total` out-parameter.
  - Every item model the managers build wraps the stored DataFrame itself (`src/table_manager.py:55,79,91,110,188,195`; `table_manager.py:25,46,58,136,143,147,156,161`), so a `setData` edit through a view changes the stored table. In the model each `PandasModel` holds its own copy of the frame, and an edit does not reach the store.
- `TableModel.PandasModel.Data` and `LegacyTableModel.PandasModel.Data` return the cell, where the source returns its text `str(cell)`. Python's formatting of numbers is not modelled.
- `TableStore.GaussianError` reports NotANumber for a `coeff_1` text that `float` reads as an infinity, because no cell holds an infinity.
- `Text.PyFloat` does not accept `_` between digits or non-ASCII digits, which Python's `float` does.
- `Text.IsPandasNumber`, `TableStore.TableManager.GetColumnData` and `LegacyTables.TableManager.GetColumnData` accept a literal whose value overflows a double, such as "1e400". pandas' parser reports a range error there, `to_numeric` gives NaN and the source raises; the model returns the column.
- `Text.LiteralValue` is the exact value the literal spells. Rounding to a double and the overflow of a huge literal to an infinity are not modelled.
- `LegacyTables.TableManager.AddReactionCummulativeFunc` uses the peak shapes of `src/math_operations.py`: the Gaussian height is clamped at 0, and every tag other than "gauss" is a Fraser-Suzuki peak. The object the root `main.py` passes in is the root `math_operations.py`, which has no clamp and no `fraser_suzuki`, so there a non-"gauss" slot raises AttributeError; that variant is not modelled.
- `PandasModel.flags` only returns Qt flags and is not modelled.
