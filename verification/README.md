# CSV field hashing: a Dafny model

This project models the core of a desktop tool that pseudonymises CSV files.
The user chooses one or more CSV files, picks fields from their headers and
chooses a digest algorithm: RIPEMD-160, or SHA-224/256/384/512 as defined in
FIPS PUB 180-4. A background thread then does four things:

- It collects every distinct value of every picked field of every file into
  a temporary SQLite table `data` in `source.db`. Each row is a record
  `(Hashvalue, Plaintext, FieldName)`.
- It writes a summary mapfile `Hash_MapFile_<alg><ext>` with every record,
  ordered by field and plaintext and de-duplicated.
- It writes one mapfile `<field>_MapFile_<alg><ext>` per picked field, with
  the field's (hash, plaintext) pairs ordered by hash.
- It writes a hashed copy of every input file, in which each cell of a
  picked column is replaced by its hash. The copy is named
  `'Hashed_' + name.replace(ext, '_<alg>' + ext)`, which is
  `Hashed_<stem>_<alg><ext>` when the extension is not empty and occurs only
  at the end of the name. Finally it
  removes `source.db`.

The model follows the program's structure, one module per concern:

| module | what it models |
|---|---|
| `Results` | `Option` and `Result` |
| `Seqs` | keep-first de-duplication (pandas `drop_duplicates`), filter, map, flatten |
| `Order` | lexicographic string order, and the stable sort behind `ORDER BY` |
| `Strings` | Python `str.replace`, `rstrip`, `split` and `join` |
| `Encoding` | UTF-8 encoding (`str.encode`) and hex digests (`hexdigest`), with their inverses |
| `Folding` | `StringFolder.fold_string` and `string_folding_wrapper` |
| `Hashing` | `identify_hash` and `hash_text`; the digest primitive is a parameter `D` |
| `Tables` | input CSV files, frames, and the frame operations the program uses |
| `MappingStore` | table `data`: absent until the first append, and its three queries |
| `Collect` | `create_temp_db` |
| `Composite` | the per-field frame `create_temp_db` assembles, step by step as pandas does |
| `Generators` | the summary map, the per-field maps and the output file names |
| `Rewrite` | `create_hashed_version_of_input` |
| `Phases` | the three writers as phases over an output directory |
| `Worker` | `WorkerThread.run` and the start buttons |
| `Picker` | the header text, the field picker, the selection string and the algorithm buttons |

The output directory is modelled as a map from file name to the frame written
under that name. `source.db` is a `Store`: `Absent` until the first batch is
appended, and `Absent` again once removed. A step that raises in the program
is an `Err`, and a phase that fails ends the run there.

## Model

| member | source | states |
|---|---|---|
| Folding.FoldString | source/csvcryptohashinglogic.py:43-75 | Folding returns a value equal to its argument, and leaves non-strings and the table unchanged. A new string is entered as its own representative. Representatives already chosen never change. |
| Folding.StringFoldingWrapper | source/csvcryptohashinglogic.py:78-91 | The wrapper yields exactly one tuple per result row. Each tuple holds that row's values in key order. |
| MappingStore.WrapperOfResult | source/csvcryptohashinglogic.py:219-223 | Reading a `SELECT *` result through the wrapper gives each record's three cells, in result order. |
| Hashing.Initial | source/csvcryptohashinglogic.py:101-103 | A new hasher starts with SHA-512, and its name matches its hash object. |
| Hashing.IdentifyHash | source/csvcryptohashinglogic.py:127-148 | Codes 1 to 5 select a fresh object whose name matches its algorithm. Any other code leaves the state unchanged. |
| Hashing.NameInjective | source/csvcryptohashinglogic.py:134-148 | The five algorithm names are pairwise distinct. |
| Hashing.HstrAlwaysNamed | source/csvcryptohashinglogic.py:127-148 | After any sequence of codes, `hstr` is one of the five names and agrees with the hash object. |
| Hashing.HashValue | source/csvcryptohashinglogic.py:158-159 | A digest text decodes back to the digest of the UTF-8 bytes of the value. It uses only lower-case hex digits. |
| Hashing.HashValueLength | source/csvcryptohashinglogic.py:159 | A digest text has twice as many characters as the digest has bytes. |
| Hashing.HashText | source/csvcryptohashinglogic.py:150-160 | The hash of a value depends only on the algorithm and the value. Bytes the template object absorbed earlier have no effect. |
| Hashing.HashValueCollision | source/csvcryptohashinglogic.py:150-160 | Two values get the same hash text exactly when the digest collides on their encodings. |
| Encoding.Utf8RoundTrip | source/csvcryptohashinglogic.py:158 | Decoding the UTF-8 encoding of any string of scalar values gives the string back. |
| Encoding.Utf8Injective | source/csvcryptohashinglogic.py:158 | Distinct strings have distinct encodings. |
| Encoding.HexRoundTrip | source/csvcryptohashinglogic.py:159 | Decoding the hex text of any bytes gives those bytes back. |
| Encoding.HexInjective | source/csvcryptohashinglogic.py:159 | Distinct byte sequences have distinct hex texts. |
| Tables.ResolveFields | source/csvcryptohashinglogic.py:185 | The fields processed for a file are exactly the picked fields its header has, each once. |
| Tables.InputFrame | source/csvcryptohashinglogic.py:305-306 | A file read with `dtype=object` keeps its header and row count, and every cell is the file's text. This matches pandas only for files with no empty cell and no cell equal to one of pandas' default NA markers. |
| Tables.DropColumn | source/csvcryptohashinglogic.py:266 | Dropping a column removes the first column with that label from the header and from every row. A missing column fails with `KeyError`. |
| Tables.AssignColumn | source/csvcryptohashinglogic.py:199-202 | Assigning overwrites the column with that label, or appends one. The cells land in that column and every other column is kept. |
| Tables.SetColumns | source/csvcryptohashinglogic.py:268 | Relabelling keeps the rows. It fails exactly when the number of labels differs. |
| Seqs.Distinct | source/csvcryptohashinglogic.py:226 | De-duplication keeps every value exactly once, in order of first occurrence. |
| Order.SortBy | source/csvcryptohashinglogic.py:221 | The sorted result is ordered by the key and is a permutation of the input. |
| Order.StrictlySortedUnique | source/csvcryptohashinglogic.py:221 | Two strictly ordered sequences with the same members are equal. |
| Strings.ReplaceSuffixOnly | source/csvcryptohashinglogic.py:311 | When the pattern occurs only as a suffix, `replace` rewrites just that suffix. |
| Strings.SplitJoin | source/itellihashcsv.py:111 | Splitting a joined list of comma-free items gives the list back. |
| Collect.Batch | source/csvcryptohashinglogic.py:197-204 | One batch has at most one record per row, and no two of its records share a plaintext. |
| Collect.BatchContents | source/csvcryptohashinglogic.py:197-204 | A record is in a batch exactly when it has the field, a value of the column, and that value's hash. |
| Collect.FileRecordsContents | source/csvcryptohashinglogic.py:195-204 | A file contributes exactly the records of its processed fields' values, each with its own hash. |
| Collect.FileRecordsNoDup | source/csvcryptohashinglogic.py:195-204 | For distinct fields, the records one file contributes are pairwise distinct. |
| Collect.CollectFields | source/csvcryptohashinglogic.py:195-204 | The field loop extends the table by exactly the file's records. The table exists afterwards when it did before or some field was processed. |
| Collect.CreateTempDb | source/csvcryptohashinglogic.py:162-204 | Collection keeps the records already present and appends the run's records after them. The table exists afterwards exactly when it did before or some file has a picked field. |
| Collect.RunRecordsContents | source/csvcryptohashinglogic.py:173-204 | A run adds exactly the records that some file produces for its picked fields. |
| Collect.RunRecordsWellHashed | source/csvcryptohashinglogic.py:173-204 | Every record a run adds holds the hash of its plaintext and a picked field. |
| Collect.NoOverlapNoChange | source/csvcryptohashinglogic.py:185-204 | A file without picked fields leaves the table as it was. |
| Composite.KeyFrame | source/csvcryptohashinglogic.py:197-198 | The field's column, de-duplicated, holds each distinct value once, in order of first occurrence. |
| Composite.Assigned | source/csvcryptohashinglogic.py:199-202 | The frame before the drop is rectangular, and the field's own column comes first. |
| Composite.AssignedRows | source/csvcryptohashinglogic.py:197-202 | For an ordinary field name, each row holds the value, its hash, the value again and the field name. |
| Composite.CompositeFrameIsBatch | source/csvcryptohashinglogic.py:197-204 | For an ordinary field name, the frame appended to `data` is that field's batch of records, in the table's column order. |
| Composite.CompositeFrameClash | source/csvcryptohashinglogic.py:199-203 | A field named `Hashvalue`, `Plaintext` or `FieldName` yields a frame with only two columns, without its own. |
| MappingStore.SelectOrdered | source/csvcryptohashinglogic.py:219-221 | The summary query returns a permutation of the table, ordered by field then plaintext. It fails when the table is absent. |
| MappingStore.SelectField | source/csvcryptohashinglogic.py:262-263 | The per-field query returns exactly the field's records, ordered by hash. It fails when the table is absent. |
| MappingStore.SelectPairs | source/csvcryptohashinglogic.py:289 | The pair query returns one (plaintext, hash) pair per record, in table order. |
| MappingStore.HashDeterminedByPlain | source/csvcryptohashinglogic.py:289-290 | In a well-hashed table, records with the same plaintext have the same hash, whatever their field. |
| Generators.SummaryMap | source/csvcryptohashinglogic.py:206-230 | The summary exists exactly when the table does; otherwise it fails with `NoSuchTable`. It has the table's three labels, or none when the table is empty. |
| Generators.SummaryMapContents | source/csvcryptohashinglogic.py:218-226 | The summary holds each distinct record of the table exactly once, ordered by field then plaintext. |
| Generators.SummaryMapStrict | source/csvcryptohashinglogic.py:218-226 | In a well-hashed table, no two summary rows share a field and a plaintext. |
| Generators.SummaryMapSetOnly | source/csvcryptohashinglogic.py:218-226 | The summary of a well-hashed table depends only on which records it holds. Collection order and duplicates do not matter, so Python's set order does not either. |
| Generators.FieldFrame | source/csvcryptohashinglogic.py:264-266 | Dropping `FieldName` leaves a field's (hash, plaintext) pairs. With no records there is no such column, so the drop fails with `KeyError`. |
| Generators.FieldMap | source/csvcryptohashinglogic.py:260-269 | A field's map exists exactly when the table holds a record of that field. Its labels are the field name and `<field>_Plaintext`. |
| Generators.FieldMapContents | source/csvcryptohashinglogic.py:260-269 | A field's map holds exactly the distinct (hash, plaintext) pairs of that field's records, each once, ordered by hash. |
| Generators.FieldMapFileNames | source/csvcryptohashinglogic.py:229-270 | Distinct fields get distinct mapfile names. A field's mapfile takes the summary's name exactly when the field is called `Hash`. |
| Generators.HashedFileNameOfStem | source/csvcryptohashinglogic.py:311 | When the extension occurs only at the end of the file name, the hashed copy is named `Hashed_<stem>_<alg><ext>`. |
| Generators.HashedFileNameWithoutExtension | source/csvcryptohashinglogic.py:311 | As written, an empty extension puts the algorithm suffix around every character, so the name differs from the intended one. |
| Generators.IntendedHashedFileNameOfStem | source/csvcryptohashinglogic.py:311 | The intended name of `<stem><ext>` is `Hashed_<stem>_<alg><ext>` for every extension, including the empty one. |
| Generators.IntendedHashedFileNamesDistinct | source/csvcryptohashinglogic.py:311 | Files with the extension get the same intended name exactly when they are the same file. |
| Generators.HashedFileNameAgrees | source/csvcryptohashinglogic.py:311 | When the extension is non-empty and occurs only at the end, the name as written equals the intended name. |
| Rewrite.ToDictEntries | source/csvcryptohashinglogic.py:290 | The dictionary's keys are exactly the plaintexts of the pairs, and each entry is one of the pairs. |
| Rewrite.Mapping | source/csvcryptohashinglogic.py:289-290 | The plaintext-to-hash dictionary exists exactly when the table does. |
| Rewrite.MappingKeys | source/csvcryptohashinglogic.py:289-290 | The dictionary has an entry for exactly the stored plaintexts. |
| Rewrite.MappingEntry | source/csvcryptohashinglogic.py:289-290 | Each dictionary entry is a stored (plaintext, hash) pair. |
| Rewrite.MappingOfWellHashed | source/csvcryptohashinglogic.py:289-290 | Keying the dictionary by plaintext alone loses nothing: each entry is the hash of its key. |
| Rewrite.HashFrame | source/csvcryptohashinglogic.py:310 | Each cell of a picked column is looked up, with `None` when it is missing. Every other cell is kept, and so are the labels and row count. |
| Rewrite.HashedCopyCells | source/csvcryptohashinglogic.py:289-310 | After collection, a file's hashed copy keeps its header and row count. Each picked cell holds the hash of its value, and every other cell keeps its value. |
| Phases.SummaryPhase | source/csvcryptohashinglogic.py:218-230 | The summary phase writes the summary under its name when the table exists. Otherwise it fails with `NoSuchTable` and writes nothing. |
| Phases.FieldJobs | source/csvcryptohashinglogic.py:247-260 | The field loop visits exactly the picked fields that some file has. |
| Phases.WriteEachFailure | source/csvcryptohashinglogic.py:260-271 | A writing loop completes exactly when every key succeeds. Otherwise it stops with the first failure. |
| Phases.WriteEachFiles | source/csvcryptohashinglogic.py:260-271 | A writing loop leaves names it never writes unchanged. On completion each key's file holds that key's frame. |
| Phases.FieldMapNamesDistinct | source/csvcryptohashinglogic.py:270 | The per-field naming is injective. |
| Phases.WriteFieldMapsFailure | source/csvcryptohashinglogic.py:247-271 | The field-map phase completes exactly when every visited field has records. Otherwise it fails with `KeyError("FieldName")`, or with `NoSuchTable` when the table is absent. |
| Phases.WriteFieldMapsFiles | source/csvcryptohashinglogic.py:247-271 | The field-map phase leaves other files unchanged. On completion each visited field's mapfile holds its map. |
| Phases.WriteHashedCopiesOthers | source/csvcryptohashinglogic.py:292-313 | The copy loop leaves names no file maps to unchanged. |
| Phases.WriteHashedCopiesLast | source/csvcryptohashinglogic.py:292-313 | A name, formed with `replace` as the program forms it, holds the hashed copy of the last file that maps to it. |
| Phases.HashedPhase | source/csvcryptohashinglogic.py:289-313 | The hashed-copy phase fails, writing nothing, exactly when the table is absent. |
| Worker.Run | source/itellihashcsv.py:141-157 | The phases start in the fixed order, and a run stops at the first failure. Only a completed run removes `source.db`; a failed run leaves behind the collected table. |
| Worker.RunFrom | source/itellihashcsv.py:144-157 | The same guarantees for the phases after collection. |
| Worker.RunPhases | source/itellihashcsv.py:141-157 | The length of the trace says which phase failed, and the hashed-copy phase never fails once the summary phase has succeeded. |
| Worker.RunStopsAtSummary | source/itellihashcsv.py:143-145 | A run stops at the summary, with `NoSuchTable`, exactly when there was no table and no file has a picked field. |
| Worker.RunStopsAtFieldMaps | source/itellihashcsv.py:145-149 | A run stops at the field maps, with `KeyError`, exactly when the table exists and some visited field has no records. |
| Worker.RunCompleted | source/itellihashcsv.py:141-157 | A completed run writes every hashed copy, under the program's `replace`-formed name, over the field-map phase's directory, using the collected table. |
| Worker.RunHashedFile | source/itellihashcsv.py:141-157 | End to end: when the `replace`-formed names of the files are distinct, a completed run writes each file's hashed copy under its name, with each picked cell hashed and every other cell kept. |
| Worker.Start | source/itellihashcsv.py:541-542 | A start button runs the thread with a fresh object of the algorithm whose button was pressed last, named after it. After the "None" button it runs with the earlier state. |
| Worker.CleanRunSummaryIsOwn | source/itellihashcsv.py:141-157 | With `source.db` removed however a run ends (`RunWithCleanup`), the next run's table and summary hold exactly that next run's own records, whatever the earlier run did. |
| Worker.StaleRecordReachesNextSummary | source/itellihashcsv.py:141-157 | As written, a run that fails at the field maps leaves records behind. The next run's summary lists them even though its own files do not produce them. |
| Worker.HeaderOnlyProducesNothing | source/csvcryptohashinglogic.py:197-204 | A file with a header and no rows contributes no records. |
| Worker.LeftoverRecordInSummary | source/csvcryptohashinglogic.py:204-226 | Whatever the table already holds appears in the next summary. |
| Picker.FirstLine | source/itellihashcsv.py:494 | `readline` returns a prefix of the content. |
| Picker.FirstLineOf | source/itellihashcsv.py:494 | A line followed by a line break reads as the line with its break. A line with nothing after it reads as the line alone. |
| Picker.Choices | source/itellihashcsv.py:80-87 | The picker offers each token of the header text exactly once. |
| Picker.CleanChars | source/itellihashcsv.py:80-84 | Cleaning removes every line break, double quote and separator, and adds only commas. |
| Picker.TokensClean | source/itellihashcsv.py:80-85 | No offered choice contains a comma, a double quote, a line break or the separator. |
| Picker.LastTokenEmpty | source/itellihashcsv.py:84-85 | Trailing commas are stripped, so the last choice is empty only when the choices are just one empty string. |
| Picker.TrailingIgnored | source/itellihashcsv.py:80-85 | A trailing line break, comma, quote or separator changes no choice. |
| Picker.SelectionRoundTrip | source/itellihashcsv.py:110-121 | Comma-free picked items come back exactly after joining and re-splitting, unless the pick is a single empty item. |
| Picker.SelectionOfChoices | source/itellihashcsv.py:110-121 | Any pick from the offered choices comes back exactly, except a lone empty choice. |
| Picker.Press | source/itellihashcsv.py:380-451 | The button codes are distinct. Each algorithm button selects a fresh object of its algorithm under its own name, and "None" leaves the state unchanged. |
| Picker.HeaderTextGlues | source/itellihashcsv.py:491-494 | As written, a header file with no final line break runs into the next file's header. `u,v` then `w,z` offers `u`, `vw` and `z`. |
| Picker.TerminatedHeadersOfferEveryField | source/itellihashcsv.py:491-494 | With each first line ended by a line break, the choices are exactly the fields of every header, in order. |

## Left out

- CSV parsing as pandas does it is not modelled: quoting, `delim_whitespace`, missing values and type inference. An input file is a header of distinct names and rows of text cells, which is what `dtype=object` gives only for files with no empty cell and no cell equal to a default NA marker.
- NaN cells are not modelled. `read_csv` is called without `keep_default_na=False` or `na_filter=False`, so an empty cell and any cell equal to one of pandas' default NA markers read as NaN. The markers include `NA`, `N/A`, `n/a`, `NULL`, `null`, `NaN`, `nan`, `-nan`, `#N/A` and `<NA>`. Such a cell is hashed as the text `nan` (line 158) and stored with a NULL plaintext. Line 310 then writes it as an empty cell. The model instead treats such a cell as ordinary text, so for a cell `NA` it stores and writes `hash("NA")`.
- The wx user interface, status messages, the progress gauge and the thread itself are not modelled. The model keeps only the order of the phases and the effect of a phase that raises.
- `remove_sqlite` and `gc.collect` are modelled only as the store becoming `Absent`. File I/O and the SQLite engine are left out.
- The input directory prefix of every read, and the text written by `to_csv`, are not modelled. Outputs are frames in a map from file name to frame, and the output directory is a plain string prefix.
- The `unicode_map` branch of `fold_string` is folded into the same table as `sys.intern`. Under Python 3, `str(s)` never raises `UnicodeEncodeError`, so that branch is never reached.
- Python `set` order in line 185 is unspecified, and the model uses header order instead. `Generators.SummaryMapSetOnly` shows the summary does not depend on it. Per-field maps and hashed copies do not either, since each is keyed by field.
- SQLite `ORDER BY` ties are modelled by a stable sort. In a well-hashed table (`Generators.SummaryMapStrict`) tied summary rows are identical, and per-field ties need a hash collision. A table holding records left by an earlier run with another algorithm (the finding at itellihashcsv.py:141-157) can hold rows with the same field and plaintext but different hashes. Their order in the summary is unspecified in SQLite and follows insertion order in the model.
- The digest algorithms themselves are the parameter `D`. RIPEMD-160 and the SHA-2 functions are known only by name and digest size.
- `fileextension` is modelled as a parameter. In the program it is taken from the first chosen path (line 490).
- `_inputseparator` is the constant `,` (line 67), so line 82 is dead code. The picker lemmas still take the separator as a parameter.
- Hashing.IdentifyHash: code 0 (the "None" button) and any other code leave the state unchanged, so a run hashes with the algorithm selected before, SHA-512 for a new hasher. No error is raised when no algorithm is chosen.
- A field named `Hash` has its mapfile written over the summary mapfile (`Generators.FieldMapFileNames`). A hashed copy can also take a mapfile's name. Both are stated, not corrected: the model writes the directory in the program's order.
- `to_sql` of a frame whose columns do not match the table's is not modelled. This is the case of `Composite.CompositeFrameClash`, whose frame has two columns. With `index=False` and `if_exists='append'`, such a frame appended to an existing three-column table is accepted, with `NULL` in the missing column. If it is the first append, it creates a two-column table, and later three-column frames are then rejected. `Collect` models the intended three-column batch in both cases, so it departs from the program in both.
- Phases.WriteHashedCopies: names copies as the program does (`Generators.HashedFileName`). The intended name (`Generators.IntendedHashedFileName`) is proved apart in the finding at csvcryptohashinglogic.py:311; the runs do not use it.
- Tables.DropColumn: removes only the first column with the label, while pandas removes every such column. No frame in the model has two columns with the same label.
- Per-file error isolation and cancellation are not modelled, because the program has neither.

## Findings

| source | as written | input that shows it | evidently intended | confidence | as-written member | corrected member |
|---|---|---|---|---|---|---|
| source/csvcryptohashinglogic.py:311 | The hashed copy is named with `file.replace(fileextension, '_' + hstr + fileextension)`. | A file `x` without an extension, so `fileextension` is empty, is written as `Hashed__<alg>x_<alg>`. | `Hashed_x_<alg>`: the suffix goes after the stem, and distinct files get distinct names. | not executed | Generators.HashedFileNameWithoutExtension | Generators.IntendedHashedFileNamesDistinct |
| source/itellihashcsv.py:491-494 | The header text concatenates each file's `readline()`, which has no line break when a file is only a header without a final newline. | Files `u,v` (no newline) then `w,z` and a newline give the choices `u`, `vw`, `z`. | Every header field is offered separately. | not executed | Picker.HeaderTextGlues | Picker.TerminatedHeadersOfferEveryField |
| source/itellihashcsv.py:141-157 | `source.db` is removed only after every phase has succeeded, with no `finally`. | A run picking `x` of `a.csv` (header `x`, row `1`) and `y` of the header-only `b.csv` stops at the field maps. A thread that raises never reaches `onlongrundone` (line 157), so the buttons stay disabled and no further run is possible in that session. After the program is restarted, files are chosen again from the same directory. `source.db` is the relative `sqlite:///source.db` (csvcryptohashinglogic.py:120), opened after the file dialog has changed directory (line 482). A run there picking only `z` lists `x`'s record in its summary. | The store is removed on every exit path, so each run's outputs hold only its own records. | not executed | Worker.StaleRecordReachesNextSummary | Worker.CleanRunSummaryIsOwn |
| source/csvcryptohashinglogic.py:197-203 | The per-field frame assigns `Hashvalue`, `Plaintext` and `FieldName`, then drops the field's own column. | A picked field named `Plaintext` is overwritten by the assignment and then dropped. The frame keeps only `Hashvalue` and `FieldName`. | The frame is the field's batch of (hash, plaintext, field) records for every field name. | not executed | Composite.CompositeFrameClash | Collect.BatchContents |
