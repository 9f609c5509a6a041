# NAPLAN student-outcome consolidator, modelled in Dafny

This project models the batch script that turns per-campus NAPLAN
"StudentOutcomeLevel" CSV exports into one master table
(`NAPLAN_StudOutcomeLvl_DataFormatting.py`). It covers:

- the chunk transformer `process_chunk`, which:
  - cleans the header;
  - reads Test Year, Year Level and Campus off the file name;
  - builds `Full Name`;
  - stamps `Processed On` and `Source File`;
  - drops the unwanted columns;
  - renames `Cases ID` to `Student ID`;
  - puts the columns in the preferred order.
- the `incremental_pipeline` loop, which:
  - appends every transformed chunk to the master file;
  - appends the rows without a student identifier to the missing-ID file;
  - writes a header only when a file is created;
  - supports the force-rebuild reset.

Layout, one module per file:

- `wrappers.dfy`: `Option` stands for a NaN cell. `Result` carries the Python exception (`IndexError`, `KeyError`).
- `text.dfy`: `str.strip()` and `re.sub(r'\s+', ' ', …)` over Python's whitespace class.
- `tokens.dfy`: `str.split(sep)` and `sep.join(parts)` for a one-character separator, with their round trips.
- `filenames.dfy`: the fixed-position file-name metadata.
- `fullname.dfy`: `' '.join(filter(None, …))` over the three name cells, with NaN read as empty.
- `tables.dfy`: a frame as column names plus rows (maps from column name to cell). It holds the pure column operations: header cleaning, assignment, drop, rename and reorder.
- `chunks.dfy`: `process_chunk` as a function `Transform` on frames, and the properties proved about it. The lemmas about a successful call assume `Succeeds`: a file name with at least four `_` pieces and all three name columns present. `TransformErrors` shows that this is exactly when `Transform` returns a frame, and each of those lemmas also concludes that it does.
- `frame.dfy`: the same procedure done in place. `Frame` is a mutable frame, and `ProcessChunk` updates it statement by statement. It is proved to produce `Transform`'s result.
- `pipeline.dfy`: the output files as `Option` of lines (`None` means the file does not exist), and header-once appending. It also has the missing-ID selection, the run as a function of the input folder, and the `Pipeline` class that runs it with nested loops.

## Model

| member | source | states |
|---|---|---|
| Text.CleanNameNormalized | NAPLAN_StudOutcomeLvl_DataFormatting.py:13 | a cleaned column name has no leading or trailing whitespace, and its only whitespace is single plain spaces |
| Text.CleanNameFixed | NAPLAN_StudOutcomeLvl_DataFormatting.py:13 | cleaning leaves a name unchanged exactly when the name is already normalised (both directions) |
| Text.CleanNameIdempotent | NAPLAN_StudOutcomeLvl_DataFormatting.py:13 | cleaning a header name twice gives the same result as cleaning it once |
| Text.CleanNameKeepsText | NAPLAN_StudOutcomeLvl_DataFormatting.py:13 | cleaning changes only whitespace: the non-whitespace characters stay, in order |
| Text.CollapseShape | NAPLAN_StudOutcomeLvl_DataFormatting.py:13 | replacing `\s+` runs gives single spaces, is empty only for the empty name, and has a space at an end exactly where the input had whitespace |
| Text.CleanNameWords | NAPLAN_StudOutcomeLvl_DataFormatting.py:13 | a cleaned name is exactly the name's words (its maximal non-whitespace runs, `s.split()`) joined by single spaces, so every internal whitespace run becomes exactly one space |
| Text.CollapseSpaceRun | NAPLAN_StudOutcomeLvl_DataFormatting.py:13 | a whole whitespace run followed by a non-space (or the end) becomes one space, however long the run |
| Text.CollapseWordPrefix | NAPLAN_StudOutcomeLvl_DataFormatting.py:13 | a leading run of non-whitespace text passes through `\s+` replacement unchanged, and what follows it is replaced on its own |
| Text.CleanNameDoubleSpace | NAPLAN_StudOutcomeLvl_DataFormatting.py:13 | for any two non-space characters, `x  y` (two spaces) cleans to `x y` (one space), not `xy` |
| Tokens.SplitPieces | NAPLAN_StudOutcomeLvl_DataFormatting.py:16-18 | `split` gives one more piece than there are separators, and no piece contains the separator |
| Tokens.JoinSplit | NAPLAN_StudOutcomeLvl_DataFormatting.py:16-18 | joining the pieces of a split with the same separator gives back the original string |
| Tokens.SplitJoin | NAPLAN_StudOutcomeLvl_DataFormatting.py:22 | splitting a join of separator-free pieces gives back the pieces |
| Tokens.FirstToken | NAPLAN_StudOutcomeLvl_DataFormatting.py:16-18 | `split('.')[0]` is the longest prefix that contains no `.` |
| FileNames.ParseFileName | NAPLAN_StudOutcomeLvl_DataFormatting.py:16-18 | the result is an IndexError exactly when the name has fewer than three `_`; otherwise the three tokens contain no `_` or `.`, and Test Year is a prefix of the name |
| FileNames.ParsePositions | NAPLAN_StudOutcomeLvl_DataFormatting.py:16-18 | for any name `a_b_c_d` followed by nothing or by `_...`, with `a`..`d` free of `_`, parsing succeeds with Test Year = `a`, Year Level = `c` and Campus = `d`, each cut at its first `.`, whatever `b` and the rest hold |
| FileNames.ParseConformingName | NAPLAN_StudOutcomeLvl_DataFormatting.py:16-18 | every name of the form `Y_StudentOutcomeLevel_YrL_C.csv` yields exactly Test Year `Y`, Year Level `YrL` and Campus `C` |
| FileNames.ParseExampleName | NAPLAN_StudOutcomeLvl_DataFormatting.py:16-18 | `2023_StudentOutcomeLevel_Yr5_Hills.csv` gives `2023`, `Yr5`, `Hills` |
| FileNames.ParseSwappedName | NAPLAN_StudOutcomeLvl_DataFormatting.py:16-18 | only token positions matter: a name with campus and year swapped is accepted and yields swapped metadata without error |
| FullNames.NonEmpty | NAPLAN_StudOutcomeLvl_DataFormatting.py:22 | `filter(None, …)` keeps exactly the non-empty parts, and no kept part is empty |
| FullNames.NonEmptyConcat | NAPLAN_StudOutcomeLvl_DataFormatting.py:22 | filtering a concatenation is concatenating the filtered pieces, so the kept parts keep their order and their repeats |
| FullNames.NonEmptySingle | NAPLAN_StudOutcomeLvl_DataFormatting.py:22 | a single part is kept exactly when it is non-empty; with `NonEmptyConcat` this fixes the result on every input |
| FullNames.FullNameEmpty | NAPLAN_StudOutcomeLvl_DataFormatting.py:21-23 | the full name is empty exactly when all three name cells are missing or empty |
| FullNames.FullNameSegments | NAPLAN_StudOutcomeLvl_DataFormatting.py:21-23 | for space-free name parts, splitting the full name at spaces gives the non-empty parts in First, Second, Surname order, and no segment is empty |
| FullNames.FullNameAllParts | NAPLAN_StudOutcomeLvl_DataFormatting.py:21-23 | with all three parts present the full name is `First Second Surname` |
| FullNames.FullNameNoSecond | NAPLAN_StudOutcomeLvl_DataFormatting.py:21-23 | a missing or empty second name leaves `First Surname`, with no doubled space |
| FullNames.FullNameOrder | NAPLAN_StudOutcomeLvl_DataFormatting.py:21-23 | for every pattern of missing or empty cells, the full name is the space-join of the present parts in the order First Name, Second Name, Surname |
| Tables.CleanHeader | NAPLAN_StudOutcomeLvl_DataFormatting.py:13 | every column is renamed to its cleaned name in place, with the same row count, and every cell stays under its renamed column |
| Tables.SetColumn | NAPLAN_StudOutcomeLvl_DataFormatting.py:16-29 | assigning a column overwrites an existing column where it stands, or appends a new one at the end, and sets that cell on every row |
| Tables.Drop | NAPLAN_StudOutcomeLvl_DataFormatting.py:35-36 | dropping removes the name from the columns, keeps the rest in order, and removes that cell from every row |
| Tables.DropAllEffect | NAPLAN_StudOutcomeLvl_DataFormatting.py:32-36 | after the drop loop, the columns are the original ones minus every listed name, in their order (absent names are skipped), and each row loses exactly those cells |
| Tables.Rename | NAPLAN_StudOutcomeLvl_DataFormatting.py:39-40 | when the old name is present, it becomes the new name at the same position with the same cells; otherwise the frame is unchanged |
| Tables.Reorder | NAPLAN_StudOutcomeLvl_DataFormatting.py:50-56 | the reordered columns are a permutation of the columns, and the rows are unchanged |
| Tables.ReorderRanks | NAPLAN_StudOutcomeLvl_DataFormatting.py:50-56 | the reordered columns are strictly sorted by rank: preferred names that are present come first in preferred order, then the others in their original relative order |
| Tables.ReorderLeads | NAPLAN_StudOutcomeLvl_DataFormatting.py:43-56 | when the first four preferred names are present, they are the first four columns |
| Tables.DropRenameEffect | NAPLAN_StudOutcomeLvl_DataFormatting.py:32-40 | after dropping and renaming, the columns are exactly the kept ones plus the new identifier, the identifier keeps the old column's values, and every other kept cell is unchanged |
| Chunks.TransformErrors | NAPLAN_StudOutcomeLvl_DataFormatting.py:16-23 | the transform fails exactly for a file name with fewer than four `_` pieces (IndexError), or a header missing a name column (KeyError naming those columns) |
| Chunks.TransformRows | NAPLAN_StudOutcomeLvl_DataFormatting.py:11-59 | row count and row order are kept: output row `j` is cleaned input row `j`, with the derived cells set, then dropped and renamed |
| Chunks.TransformCells | NAPLAN_StudOutcomeLvl_DataFormatting.py:16-40 | every row has the same Campus, Test Year, Year Level and Processed On, and Source File equals the file name; Full Name comes from the row's own name cells, and Student ID holds the former Cases ID value |
| Chunks.TransformColumns | NAPLAN_StudOutcomeLvl_DataFormatting.py:32-40 | no dropped name and no `Cases ID` remains; the columns are the derived ones, Student ID when Cases ID or Student ID was present, and the other kept input columns |
| Chunks.DropIsCaseSensitive | NAPLAN_StudOutcomeLvl_DataFormatting.py:32-47 | matching is case-sensitive: `Date of birth` survives, while `Date of Birth` never does |
| Chunks.TransformOrder | NAPLAN_StudOutcomeLvl_DataFormatting.py:43-56 | the output columns are a permutation of the post-drop/rename columns, in preferred-then-original order |
| Chunks.TransformLeads | NAPLAN_StudOutcomeLvl_DataFormatting.py:43-56 | the first four output columns are always Full Name, Campus, Test Year, Year Level |
| ChunkFrames.Frame.CleanColumnNames | NAPLAN_StudOutcomeLvl_DataFormatting.py:13 | the frame's new state is its cleaned header, with the same cells |
| ChunkFrames.Frame.Assign | NAPLAN_StudOutcomeLvl_DataFormatting.py:16-29 | the frame's new state has the scalar broadcast into the named column |
| ChunkFrames.Frame.AssignColumn | NAPLAN_StudOutcomeLvl_DataFormatting.py:21-23 | the frame's new state has the per-row values in the named column |
| ChunkFrames.Frame.DropColumn | NAPLAN_StudOutcomeLvl_DataFormatting.py:36 | the frame's new state is the old one with the column dropped in place |
| ChunkFrames.Frame.DropEach | NAPLAN_StudOutcomeLvl_DataFormatting.py:34-36 | the in-place drop loop leaves the frame equal to dropping every listed name that is present, in list order |
| ChunkFrames.Frame.RenameColumn | NAPLAN_StudOutcomeLvl_DataFormatting.py:39-40 | the frame's new state is the old one with the column renamed in place |
| ChunkFrames.ProcessChunk | NAPLAN_StudOutcomeLvl_DataFormatting.py:11-59 | the in-place procedure raises exactly the exceptions `Transform` gives; on success it returns a fresh frame equal to `Transform`'s value, and leaves the caller's frame cleaned, extended, dropped and renamed but not reordered |
| Pipelines.RecordsRoundTrip | NAPLAN_StudOutcomeLvl_DataFormatting.py:90 | the record for row `j` lists row `j`'s cells in header order: read under the frame's header, record `j` is row `j` |
| Pipelines.AppendExisting | NAPLAN_StudOutcomeLvl_DataFormatting.py:90 | appending to a file that exists adds every frame's rows in order, and no header |
| Pipelines.HeaderOnce | NAPLAN_StudOutcomeLvl_DataFormatting.py:90-95 | from no file, any sequence of appends gives one header (the first frame's) followed by every frame's rows in order; with no appends there is no file |
| Pipelines.SingleHeader | NAPLAN_StudOutcomeLvl_DataFormatting.py:90-95 | a created output has exactly one header line, as its first line, and every other line is a record |
| Pipelines.AppendAllConcat | NAPLAN_StudOutcomeLvl_DataFormatting.py:90 | appending two batches in one go is the same as appending them one after the other |
| Pipelines.NoIdIndicesSpec | NAPLAN_StudOutcomeLvl_DataFormatting.py:93 | applied to the Student ID column's values, the `isna()` mask selects exactly the positions whose value is missing, each once, in increasing order |
| Pipelines.MissingIds | NAPLAN_StudOutcomeLvl_DataFormatting.py:93 | without a Student ID column the selection is a KeyError; otherwise it is the rows with a missing Student ID, in order, projected onto Full Name, Campus, Test Year |
| Pipelines.MissingIdsEmpty | NAPLAN_StudOutcomeLvl_DataFormatting.py:93-94 | the selection is empty (nothing appended) exactly when every row has a Student ID |
| Pipelines.MissingIdsFails | NAPLAN_StudOutcomeLvl_DataFormatting.py:93 | with the projected columns present, the selection fails exactly when there is no Student ID column |
| Pipelines.TransformedMissingIds | NAPLAN_StudOutcomeLvl_DataFormatting.py:87-93 | after the transform, the selection raises KeyError exactly when the chunk had neither `Cases ID` nor `Student ID` |
| Pipelines.OnlyCsvRead | NAPLAN_StudOutcomeLvl_DataFormatting.py:80-81 | removing the non-`.csv` entries from the folder does not change the run |
| Pipelines.RunStepsConcat | NAPLAN_StudOutcomeLvl_DataFormatting.py:80-97 | a run over two batches of chunks is the first batch, then (unless it raised) the second; nothing after an exception runs |
| Pipelines.RunJobsStop | NAPLAN_StudOutcomeLvl_DataFormatting.py:80-97 | once a chunk raises, no later chunk is processed |
| Pipelines.RerunAppendsAgain | NAPLAN_StudOutcomeLvl_DataFormatting.py:73-97 | the processed log is never consulted, so a second run over the same folder (same chunks, same clock readings) appends every row again after the first run's |
| Pipelines.Pipeline.Prepare | NAPLAN_StudOutcomeLvl_DataFormatting.py:63-77 | force-rebuild removes the master file and the log but keeps the missing-ID file, and starts with an empty processed set; otherwise the set is the log's stripped lines |
| Pipelines.Pipeline.AppendMaster | NAPLAN_StudOutcomeLvl_DataFormatting.py:90 | the master file gains the frame with a header only if it did not exist; nothing else changes |
| Pipelines.Pipeline.AppendMissing | NAPLAN_StudOutcomeLvl_DataFormatting.py:95 | the missing-ID file gains the frame with a header only if it did not exist; nothing else changes |
| Pipelines.Pipeline.Write | NAPLAN_StudOutcomeLvl_DataFormatting.py:88-95 | the files receive exactly the appends `Outputs` gives for the transform result, and the method reports its exception |
| Pipelines.Pipeline.RunChunk | NAPLAN_StudOutcomeLvl_DataFormatting.py:86-95 | one chunk through the in-place transform and both appends gives the files the appends of `Step` |
| Pipelines.Pipeline.RunFile | NAPLAN_StudOutcomeLvl_DataFormatting.py:81-97 | the chunk loop over one folder entry leaves the files equal to the run's appends so far, and stops at the first exception |
| Pipelines.Pipeline.Run | NAPLAN_StudOutcomeLvl_DataFormatting.py:62-97 | after the whole run, each file is its prepared state plus the run's appends in file-then-chunk order, stopping at the first exception; the log is untouched unless forced |

## Left out

- Pipelines.RecordsRoundTrip: holds of the abstract record line only. `to_csv` writes a missing cell and an empty string alike as an empty field, and an empty field is read back as missing. So an empty Full Name (`FullNames.FullNameEmpty`) or an empty Campus, Test Year or Year Level (from a name such as `_x_y_z.csv`) reads back from the written file as missing.
- I/O is not modelled. The input folder is a sequence of (file name, chunks) in directory-listing order, and each chunk is a frame; `pd.read_csv` chunking by `CHUNK_SIZE` is not modelled. The output files are in-memory sequences of header and record lines; the CSV text that `to_csv` writes (quoting, separators, and empty fields standing for both missing and empty cells) is not modelled.
- The clock is a parameter: each chunk carries the `now` string that `datetime.now().strftime(...)` would give, so its format is not checked.
- The command line (`argparse` in `main`) and the interactive y/n prompt are not modelled. The `print` calls are left out.
- Dashboard_codeForShiny.py is not part of this model: it is a UI stub with no logic.
- pandas type coercion is not modelled. Every cell is a string or missing (`None`, i.e. NaN). An empty CSV field is read as missing, so `isna()` is `None?`.
- Chunks.Transform: requires `Admissible`, i.e. distinct column names after cleaning, and not both `Cases ID` and `Student ID`. With duplicates pandas would hold two columns of one name; such frames are not modelled.
- ChunkFrames.ProcessChunk: requires `Admissible`, as `Chunks.Transform` does. On an exception it says nothing about the partly updated input frame.
- Chunks.TransformErrors: a chunk with no rows is treated like any other, so it succeeds with no rows. How pandas evaluates the row-wise `agg` of lines 21-23 on an empty frame, and whether the assignment then raises, depends on the pandas version. Any such exception is not modelled.
- Processed-file skipping: the log is read into a set but never consulted or written during the run. The model therefore claims neither skipping nor rerun idempotence. `Pipelines.RerunAppendsAgain` shows the opposite: a rerun duplicates rows. The `--force_rebuild` help text (line 106) speaks of ignoring the processed files log, which suggests the log was meant to be consulted otherwise; the model follows the code. `Pipelines.RerunAppendsAgain` runs the same chunks twice with the same clock readings; a real rerun reads the clock anew, so its duplicated rows differ from the first run's in `Processed On` only.
- Force rebuild keeps the missing-ID file, so after a forced run that file still holds the earlier runs' rows.
- Malformed file names are not always silent: a name with fewer than four `_` pieces raises IndexError (modelled). Other non-conforming names silently give the tokens at those positions (modelled by `FileNames.ParseSwappedName`).
