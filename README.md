# Notebook cell patcher, modelled in Dafny

The repository ships two small repair scripts for a Jupyter notebook,
`fix_normalize_function.py` and `fix_validate_function.py`. Each loads the
notebook and walks its `cells` in order. It skips every cell whose
`cell_type` is not `"code"` and joins each code cell's `source` lines into one
text. The first cell whose text contains both a *definition marker* (the
name of the broken function) and a *defect marker* (a fragment of the buggy
code) gets a corrected function body as its new `source`. The body is split
on `'\n'` and every piece gets `'\n'` back, the last piece included. Then the
loop stops.

The two scripts differ only in data, so the model writes the mechanism once:

- `text.dfy` (module `Text`): Python's `''.join`, `sep.join`,
  `str.split(sep)`, `str.count` and the substring test `in`, plus the line
  convention `[line + '\n' for line in body.split('\n')]` (`SourceLines`).
  The lemmas are about these helpers: split and join are inverses, the
  rewritten lines join to the body plus one newline, and every stored line
  ends in exactly one newline.
- `cell_patch.dfy` (module `CellPatch`): a `Cell` is a datatype with
  `cellType`, `source` and an uninterpreted `other` field standing for the
  metadata and outputs. A `Job` is a definition marker, a defect marker and a
  body. `FirstTarget` is the reference definition of "first code cell holding
  both markers". `Patched` gives the cells after one run. `ApplyPatch` is the
  scripts' loop over an `array<Cell>`, with the early `break`, and is proved
  to leave the array equal to `Patched` of its old contents. The lemmas cover
  the framing and the rerun behaviour: only the first target changes, and
  non-code cells and cells without the defect marker are never touched.
- `fix_jobs.dfy` (module `FixJobs`): the two jobs. Each has its markers and
  its replacement body as a string constant copied from the script. Each
  script's loop is one call of `ApplyPatch`, and a rerun lemma is stated for
  each job.

Running a job twice is idempotent only when the notebook holds at most one
defective cell. The loop stops at the first match, so with two defective
copies a second run rewrites the second one. `CellPatch.IdempotentIffSingleTarget`
states exactly that, in both directions. The condition is that the body
followed by a newline does not contain the defect marker.

The scripts write the notebook back even when no cell matched. A design in
which an unmatched run writes nothing has the same effect on the cells. This
model follows the scripts: a run with no match leaves the cell list
unchanged (`CellPatch.NoTargetNoChange`), and the file write is not modelled.

In `fix_normalize_function.py`, line 74 assigns the unterminated split to
`cell['source']` and line 76 overwrites it straight away. The model performs
only the assignment that takes effect.

## Model

| member | source | states |
|---|---|---|
| `Text.Split` | src/fix_normalize_function.py:76 | `body.split('\n')` has one piece per newline of the body plus one, and no piece contains a newline |
| `Text.JoinWithSplit` | src/fix_normalize_function.py:76 | joining the pieces of `body.split('\n')` with `'\n'` gives back the body: splitting loses nothing |
| `Text.SplitJoinWith` | src/fix_validate_function.py:72 | splitting the `'\n'`-join of newline-free pieces returns exactly those pieces, which pins down what `split` returns |
| `Text.JoinTerminate` | src/fix_validate_function.py:69-72 | `''.join` of the lines, each with `'\n'` appended, is their `'\n'`-join followed by one `'\n'` |
| `Text.JoinSourceLines` | src/fix_normalize_function.py:71-76 | the rewritten source joins to the body followed by exactly one newline |
| `Text.SourceLinesShape` | src/fix_normalize_function.py:76 | the rewritten source has the body's newline count plus one lines, each ends in `'\n'` (the final one too), and none holds another newline |
| `Text.SplitJoinedSourceLines` | src/fix_validate_function.py:72 | splitting the joined rewritten source on `'\n'` gives the body's pieces plus one empty piece: the trailing newline is all the convention adds |
| `Text.MissingCharNotContained` | src/fix_normalize_function.py:72 | Python's `in` cannot find a substring that has a character the text lacks |
| `Text.ContainsAppendNewline` | src/fix_validate_function.py:70-72 | a newline-free marker is in `text + '\n'` exactly when it is in `text` |
| `CellPatch.FirstTargetFrom` | src/fix_normalize_function.py:69-72 | the index returned is that of a code cell containing both markers with no such cell before it, and no index means no such cell exists |
| `CellPatch.ApplyPatch` | src/fix_normalize_function.py:69-78 | the loop leaves the cells equal to `Patched` of the old cells, and it reports a fix exactly when some cell passed the test |
| `CellPatch.PatchedKeepsShape` | src/fix_normalize_function.py:69-78 | cell count and order are kept, and every cell's type and other fields are unchanged |
| `CellPatch.OnlyFirstTargetChanges` | src/fix_normalize_function.py:70-72 | a cell that changes is the first target: a code cell whose joined source holds both markers |
| `CellPatch.AtMostOneCellChanges` | src/fix_validate_function.py:67-74 | no two distinct cells change in one run |
| `CellPatch.NonCodeCellUntouched` | src/fix_validate_function.py:68 | a cell whose type is not `"code"` is never changed, whatever its text |
| `CellPatch.CellWithoutDefectUntouched` | src/fix_validate_function.py:69-70 | a cell without the defect marker, such as an already fixed one, is never changed |
| `CellPatch.TargetRewritten` | src/fix_validate_function.py:72 | the first target keeps all fields except `source`, which becomes the terminated lines of the body; they join to the body plus `'\n'` and number the body's newlines plus one |
| `CellPatch.FirstMatchWins` | src/fix_normalize_function.py:69-78 | of two target cells the later one is left unchanged, and the rewritten cell lies at or before the earlier one |
| `CellPatch.NoTargetNoChange` | src/fix_validate_function.py:67-74 | with no target cell the cells are exactly as before |
| `CellPatch.RewrittenNotTarget` | src/fix_normalize_function.py:72-76 | a rewritten cell no longer passes the test when the body plus newline lacks the defect marker |
| `CellPatch.SecondRunTarget` | src/fix_normalize_function.py:69-78 | the first target after a run is the input's second target, if it has one |
| `CellPatch.IdempotentIffSingleTarget` | src/fix_normalize_function.py:69-78 | a second run changes nothing if and only if the input had at most one target cell |
| `CellPatch.SecondRunFindsNothing` | src/fix_validate_function.py:67-74 | with a single defective cell, the second run finds no target |
| `FixJobs.FixNormalizeFunction` | src/fix_normalize_function.py:69-78 | the normalize job is the shared loop with markers `def normalize_column_names` and `col_indices[1:]` and the corrected body |
| `FixJobs.FixValidateFunction` | src/fix_validate_function.py:67-74 | the validate job is the shared loop with markers `def validate_data_quality` and `valid_dates.min()` and the corrected body |
| `FixJobs.MarkersHaveNoNewline` | src/fix_normalize_function.py:72 | neither defect marker contains a newline |
| `FixJobs.NormalizeRerun` | src/fix_normalize_function.py:17-66 | if the corrected `normalize_column_names` lacks `col_indices[1:]`, rerunning changes nothing exactly when at most one cell was defective |
| `FixJobs.ValidateRerun` | src/fix_validate_function.py:17-64 | if the corrected `validate_data_quality` lacks `valid_dates.min()`, rerunning changes nothing exactly when at most one cell was defective |

## Left out

- Reading and writing the notebook file (`json.load`, `json.dump` with `indent=1, ensure_ascii=False`, the `open` calls): this is I/O and serialisation. The notebook is modelled as its already-parsed list of cells, and top-level notebook metadata is outside that list, so it is untouched.
- Status messages, the `__main__` drivers, the hard-coded notebook path, `try`/`except`, `traceback` and `sys.exit(1)`: these are console and process plumbing. The "found and fixed" message is modelled only as the `found` result.
- A notebook or cell without the `cells`, `cell_type` or `source` key, which makes Python raise `KeyError`: the JSON structure is assumed to be well formed.
- Aliasing between cells: `json.load` never shares one dictionary between two list positions, so rewriting `cell['source']` in place is modelled as replacing that cell's value in the array.
- What the replacement bodies mean: they are pandas code, held only as text constants.
- FixJobs.NormalizeRerun: takes as a precondition, rather than proving, that the 1.9 kB normalize body does not contain `col_indices[1:]`. The verifier cannot decide substring search over a string literal this long. The body has no occurrence of `col_indices` at all.
- FixJobs.ValidateRerun: takes as a precondition, rather than proving, that the validate body does not contain `valid_dates.min()`. Its line 50 computes `valid_datetime.min()` instead.
