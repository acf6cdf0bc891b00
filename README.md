# file-tracker, modelled in Dafny

file-tracker walks a directory tree down to a depth bound. It skips every hidden entry together with everything below it, and counts the lines of each text (`.txt`) or CSV (`.csv`) file. It can leave out one header line per file. It collects the counts in a map from path to count and lays that map out as a spreadsheet: a header row, one row per file and a TOTAL row with a SUM formula. The spreadsheet is saved as `inventory.xlsx`.

This project models the three modules that do that work and proves what they promise:

- `file_len_inventory.dfy` models `count_lines` and `is_hidden`.
  - A file is what opening it yields: its bytes, or the error of `File::open`.
  - `BufRead::lines` is modelled as the records `read_until(b'\n')` returns.
  - The count is proved to be the newline count, plus one for a non-empty unterminated tail, minus the header line when there is one.
  - The reads after a successful open are also modelled call by call, which shows what a read error does to `count()`.
- `inventory_processor.dfy` models the extension classifier and `process_inventory`.
  - The directory tree is a datatype of files, directories and special entries.
  - The walk follows walkdir's rules: the start path is at depth 0, and the hidden filter applies to every entry, the start included.
  - `process_inventory` is a loop that inserts into a map, proved equal to a fold over the walk.
  - The walk is proved sound, complete and free of repeated paths. From this the model derives exactly which paths the inventory holds, with which counts, and that the processing order does not matter.
- `parse_inventory.dfy` models `write_inventory`.
  - A `Worksheet` class holds a map from `(row, column)` to cell values. A `Workbook` class holds the sheets pushed into it.
  - The `u32` row counter and the cell writes are a loop, proved against a function that describes the whole grid.
  - The SUM formula is built from a decimal rendering with a parse round trip.
  - The output path is proved to lie inside the given directory.
- `paths.dfy` models Unix paths as sequences of `std::path::Component`: `file_name`, `parent`, `extension`, `push`, and the rendering with `/`.
- `bytes.dfy` models bytes, ASCII case folding, and the UTF-8 check behind `OsStr::to_str`.
- `wrappers.dfy` holds `Option` and `Result`.

Conventions the model fixes:
- Names are bytes, as `OsStr` is on Unix.
- A map's iteration order is unspecified, so `write_inventory`'s loop takes the order as a parameter. The parameter lists each key once with its value.
- Whether the file system accepts the saved file is a boolean parameter.
- The depth bound follows walkdir: the start path is depth 0 and its entries are depth 1. So `max_depth` 1 counts only the files directly in the start directory; `sub/b.csv` is at depth 2 and is not counted.
- A start path that cannot be read makes walkdir yield one error. `filter_map(Result::ok)` drops that error, so the inventory is empty and nothing fails.
- walkdir names the start entry after the last component of the start path, or after the whole path when there is none. So a start path of `.` is itself hidden and is pruned: the inventory of `.` is empty.

## Model

| member | source | states |
|---|---|---|
| `Bytes.HeadSequenceLength` | src/file_len_inventory.rs:16 | The length of the well-formed UTF-8 sequence at the head of the bytes. ASCII bytes give length one. Longer sequences have the announced length, continuation bytes, a scalar value and the shortest encoding. Anything else gives length zero. This is the check behind `to_str`. |
| `Paths.Extension` | src/inventory_processor.rs:18 | `Path::extension`: none without a file name, for `..`, and when the only dot is the first byte. Otherwise the bytes after the last dot, with something before that dot. |
| `Paths.RenderPush` | src/parse_inventory.rs:52 | Pushing a name onto a rendered path gives the rendering of the path extended by that component. |
| `FileLenInventory.CountLines` | src/file_len_inventory.rs:6-11 | A failed open gives its error. An opened file always gives `Ok`. Without a header the count is the number of lines. With a header it is that number minus one, and 0 for an empty file, never an underflow. |
| `FileLenInventory.SegmentCount` | src/file_len_inventory.rs:10 | `lines()` yields one item per newline, plus one for a non-empty tail without a newline. |
| `FileLenInventory.SegmentsFlatten` | src/file_len_inventory.rs:10 | The records `lines()` reads concatenate back to the file's content. No byte is lost or counted twice. |
| `FileLenInventory.SegmentsAreRecords` | src/file_len_inventory.rs:10 | Every record is non-empty, with a newline at most at its end. |
| `FileLenInventory.SegmentsTerminated` | src/file_len_inventory.rs:10 | Every record but the last ends in a newline. |
| `FileLenInventory.SegmentsShape` | src/file_len_inventory.rs:10 | Both facts together: every record is one line, and only the last may lack its newline. |
| `FileLenInventory.Lines` | src/file_len_inventory.rs:10 | One item per record, so a record that is not UTF-8 is still counted. |
| `FileLenInventory.HasLineIffNonEmpty` | src/file_len_inventory.rs:7-10 | A file has at least one line exactly when it is not empty. |
| `FileLenInventory.HeaderTakesOneLine` | src/file_len_inventory.rs:7-10 | The count without a header minus the count with one is 1 for a non-empty file and 0 for an empty one. |
| `FileLenInventory.TerminatedLinesCount` | src/file_len_inventory.rs:10 | A file of N lines, each ending in a newline, counts N. |
| `FileLenInventory.TerminatedLinesCountWithHeader` | src/file_len_inventory.rs:7-10 | With the header flag, a non-empty file of N such lines counts N - 1. |
| `FileLenInventory.UnterminatedLastLine` | src/file_len_inventory.rs:10 | Adding a non-empty last line without a newline counts one more. |
| `FileLenInventory.PersistentReadErrorNeverEnds` | src/file_len_inventory.rs:10 | As written, when every `read_line` call fails, no number of calls brings `count()` to a result: each failure is one more item. |
| `FileLenInventory.FirstReadErrorEnds` | src/file_len_inventory.rs:6-10 | With the first read error returned instead of counted, k records followed by a failed read end the count with that error after k + 1 calls. |
| `FileLenInventory.RecordsThenEnd` | src/file_len_inventory.rs:10 | Without a read error, k records followed by the end of the file count k, in both versions. |
| `FileLenInventory.ContentReadsCount` | src/file_len_inventory.rs:10 | A file that reads without error gives, in both versions, the line count that `CountLines` states. |
| `FileLenInventory.IsHidden` | src/file_len_inventory.rs:13-19 | A name that is not UTF-8 is not hidden. A UTF-8 name is hidden exactly when its first byte is `.`. |
| `FileLenInventory.WriteTestFileCountsTwoWithHeader` | src/file_len_inventory.rs:29-50 | The module's test file holds three lines, each ending in a newline, and counts 2 with the header flag. |
| `FileLenInventory.DotEnvIsHidden` | src/file_len_inventory.rs:53-62 | `.env` is hidden. |
| `InventoryProcessor.FromPath` | src/inventory_processor.rs:17-23 | `Txt` exactly when the extension equals "txt" up to ASCII case. `Csv` exactly when it equals "csv". `Other` for everything else, including no extension. |
| `InventoryProcessor.ClassifyExtension` | src/inventory_processor.rs:18-22 | The match on `extension().and_then(to_str)`, with the same if-and-only-if statements for `Txt` and `Csv`. |
| `InventoryProcessor.ClassifierIgnoresEncoding` | src/inventory_processor.rs:18-20 | An extension that matches "txt" or "csv" is ASCII, so `to_str` never turns it away. No extension matches both. |
| `InventoryProcessor.TxtIsNotCsv` | src/inventory_processor.rs:19-20 | No extension equals both "txt" and "csv", whatever its case, so the order of the match arms does not matter. |
| `InventoryProcessor.IsTextOrCsvFile` | src/inventory_processor.rs:55-60 | True exactly when the extension is "txt" or "csv" in any ASCII case. |
| `InventoryProcessor.ExtensionAfterLastDot` | src/inventory_processor.rs:18 | The extension of `stem.ext` is `ext` when `ext` has no dot and the stem is not empty. |
| `InventoryProcessor.LowerTxtQualifies` | src/inventory_processor.rs:68-73 | `test.txt` qualifies. |
| `InventoryProcessor.UpperTxtQualifies` | src/inventory_processor.rs:69-74 | `test.TXT` qualifies. |
| `InventoryProcessor.CsvQualifies` | src/inventory_processor.rs:70-75 | `test.csv` qualifies. |
| `InventoryProcessor.CommaNameDoesNotQualify` | src/inventory_processor.rs:71-76 | `test,xlsx` does not qualify: its name has no dot, so it has no extension. |
| `InventoryProcessor.LeadingDotNoExtension` | src/inventory_processor.rs:18 | A file name whose only dot is its first byte has no extension. |
| `InventoryProcessor.DotEnvHasNoExtension` | src/inventory_processor.rs:18 | `.env` has no extension: a leading dot does not start one. |
| `InventoryProcessor.DotTxtDoesNotQualify` | src/inventory_processor.rs:55-60 | `.txt` does not qualify: its only dot is its first byte, so it has no extension. This holds even apart from the name being hidden. |
| `InventoryProcessor.ProcessInventory` | src/inventory_processor.rs:26-53 | Starting from an empty map, the loop over the filtered walk inserts each regular text or CSV file whose count succeeds. The result equals the fold `Collect` over the walk. |
| `InventoryProcessor.CollectHolds` | src/inventory_processor.rs:41-50 | The keys are exactly the paths of selected entries, and each value is the count of a selected entry at that path. |
| `InventoryProcessor.CollectKeys` | src/inventory_processor.rs:41-50 | A path is a key exactly when some selected entry has that path. |
| `InventoryProcessor.CollectValue` | src/inventory_processor.rs:45-49 | When a path determines its entry, every selected entry is in the map with its own count. |
| `InventoryProcessor.CollectOrderIndependent` | src/inventory_processor.rs:31-50 | Two listings of the same entries give the same map when a path determines its entry. |
| `InventoryProcessor.WalkFromSound` | src/inventory_processor.rs:33-36 | Every entry the walk yields is reached from its start along a visible route within the depth bound. |
| `InventoryProcessor.WalkFromComplete` | src/inventory_processor.rs:33-36 | Every node on a visible route within the depth bound is yielded, with its path and depth. |
| `InventoryProcessor.WalkFromDistinct` | src/inventory_processor.rs:33-36 | The walk yields each path at most once. |
| `InventoryProcessor.WalkListsExactly` | src/inventory_processor.rs:33-36 | The filtered walk yields exactly the listed routes, each with its path and its depth. A route is listed when the start is not hidden, no name on the route is hidden, and it has at most `max_depth` names. No path is yielded twice. |
| `InventoryProcessor.InventoryExactly` | src/inventory_processor.rs:33-50 | The inventory holds, for a listed route, its path exactly when the route ends at a regular text or CSV file whose count succeeds, and then with that count. It holds no other key. A file whose count fails is absent, not recorded as 0. |
| `InventoryProcessor.InventoryKeysVisible` | src/inventory_processor.rs:33-40 | Every key is the start path followed by at most `max_depth` normal components. None of them is hidden, and neither is the start, so no descendant of a hidden directory appears. |
| `InventoryProcessor.AnyOrderGivesSameInventory` | src/inventory_processor.rs:37-50 | Processing the walk's entries in any order gives the same map. |
| `InventoryProcessor.HiddenStartGivesEmptyInventory` | src/inventory_processor.rs:36 | A hidden start path prunes the whole walk, and the inventory is empty. |
| `InventoryProcessor.UnreadableStartGivesEmptyInventory` | src/inventory_processor.rs:38 | A start path that cannot be read gives an empty inventory, not an error. |
| `InventoryProcessor.CurrentDirectoryGivesEmptyInventory` | src/inventory_processor.rs:33-36 | The start path `.` is named `.`, so it is hidden and the walk finds nothing. |
| `ParseInventory.Workbook.constructor` | src/parse_inventory.rs:15 | A new workbook holds no sheets. |
| `ParseInventory.Worksheet.constructor` | src/parse_inventory.rs:16 | A new worksheet has no cells set. |
| `ParseInventory.Worksheet.Write` | src/parse_inventory.rs:38-41 | Writing a cell inside 1,048,576 rows and 16,384 columns sets exactly that cell. Outside, it fails and changes nothing. |
| `ParseInventory.Workbook.PushWorksheet` | src/parse_inventory.rs:16 | The workbook gains the sheet as it is at the push. |
| `ParseInventory.Workbook.Save` | src/parse_inventory.rs:52 | The saved file holds the pushed sheets, or one blank sheet when none was pushed. Saving fails when the file cannot be written. |
| `ParseInventory.RowsHeader` | src/parse_inventory.rs:21-24 | Row 0 holds "directory", "sub-directory", "file" and "line_count" in columns 0 to 3, and no data row overwrites them. |
| `ParseInventory.RowsData` | src/parse_inventory.rs:26-43 | Row r, for r from 1 to n, holds the r-th data row in columns 0 to 3. |
| `ParseInventory.RowsDomain` | src/parse_inventory.rs:21-43 | After the header and n data rows, exactly the cells of rows 0 to n in columns 0 to 3 are set. |
| `ParseInventory.SheetCells` | src/parse_inventory.rs:21-50 | The sheet of n rows has the titles in row 0, data row r in row r, and TOTAL in (n+1, 2) and the formula in (n+1, 3). No other cell is set. |
| `ParseInventory.RowNamesKey` | src/parse_inventory.rs:28-29 | The parent in column 0 is never empty, and joining it with the file name in column 2 gives back the key. |
| `ParseInventory.EntriesCountKeys` | src/parse_inventory.rs:26 | The iteration visits as many items as the map has keys. |
| `ParseInventory.SheetLayout` | src/parse_inventory.rs:26-43 | For n keys there are n data rows. Every key of the inventory has the row of the item the iteration visits it at. That row's column 3 shows the key's count modulo 2^32, as `as u32` does, which is the count itself whenever it is below 2^32. |
| `ParseInventory.WriteRow` | src/parse_inventory.rs:38-41 | One item's row: inside the row limit, the four cells of its data row are set and nothing else changes. Outside, the write of column 0 fails and the sheet is unchanged. |
| `ParseInventory.FillWorksheet` | src/parse_inventory.rs:13-50 | Writes the header, one row per item with the row counter starting at 1, TOTAL and the SUM formula of the TOTAL row, closed or as written. When the TOTAL row n + 1 is inside the row limit, it returns that row, and the grid is exactly the sheet of the n data rows with that formula. Otherwise it fails with the row limit error. |
| `ParseInventory.WriteInventory` | src/parse_inventory.rs:7-54 | As written: too many rows fail with the row limit error, and a file that cannot be written fails the save. Otherwise the file is saved at `<path>/inventory.xlsx` holding one blank sheet, whatever the inventory. |
| `ParseInventory.WriteInventoryFixed` | src/parse_inventory.rs:7-54 | With the sheet pushed and the formula closed, the same errors apply. Otherwise the saved file holds exactly the sheet of the inventory, with the formula `SUM(D1:D<n+1>)`. |
| `ParseInventory.Decimal` | src/parse_inventory.rs:48 | `format!("{}", row)`: non-empty decimal digits without a leading zero. |
| `ParseInventory.DecimalRoundTrip` | src/parse_inventory.rs:48 | Reading back the decimal digits of a number gives the number. |
| `ParseInventory.SumFormulaRoundTrip` | src/parse_inventory.rs:48 | Reading back the closed formula `SUM(D1:D<row>)` gives a sum that ends at exactly row `row`. |
| `ParseInventory.SumFormulaAsWrittenUnclosed` | src/parse_inventory.rs:48 | The formula as built, `"SUM(D1:D" + row`, opens one parenthesis and closes none, so it is not a formula of the form `SUM(D1:D<row>)`. |
| `ParseInventory.SumFormulaBalanced` | src/parse_inventory.rs:48 | The closed formula opens and closes one parenthesis each. |
| `ParseInventory.OutputPath` | src/parse_inventory.rs:52 | The output path ends in `inventory.xlsx`. |
| `ParseInventory.OutputPathInDirectory` | src/parse_inventory.rs:52 | For a directory path, the output is the path of `inventory.xlsx` inside it: its file name is `inventory.xlsx` and its parent is the directory. |

## Left out

- Concurrency: rayon's `par_bridge`, `Arc` and the `Mutex` around the map. The model processes the walk's entries one at a time and proves that the order does not change the map.
- Real I/O: `File::open`, the `BufReader` reads and the `xlsx` file on disk. `CountLines` takes a file as its content or its opening error, so it covers files that read without error.
- Read errors after a successful open are modelled only as whole `read_line` outcomes. A persistent one makes the source's `count_lines` never return, as `PersistentReadErrorNeverEnds` shows. A transient one cuts a record short and adds one item; how `BufReader` splits the record around it is not modelled.
- walkdir internals: symlinks, directories that cannot be listed and other entries that are neither files nor directories are all one kind of non-file entry. The walk visits a directory's entries in the order the tree gives them. The root node's own name is not used; the start path names it.
- `std::path` normalisation: paths are already split into components, and `Render` writes them with single `/` separators. Repeated or trailing slashes in a user's string are not modelled.
- `main.rs` and `cli_parsing.rs`: argument parsing and the call from `main` into `write_inventory`. That call passes types that do not match the declared ones, so `write_inventory` is modelled against its own signature: a map from paths to counts and a directory path.
- rust_xlsxwriter:
  - Formats (bold, the number format) are not modelled; a formatted write is the same cell write.
  - The limit on string length is not modelled.
  - How the cells and sheets are encoded in the file is not modelled.
  - Only the grid bounds error of a cell write, the blank default sheet of a workbook without sheets and the save error are modelled.
- `Bytes.Ascii`: turns the string literals of the model (titles, "txt", "TOTAL") into bytes. Every literal used is ASCII; a character outside ASCII would keep only its low seven bits.
- ParseInventory.WriteInventory and ParseInventory.WriteInventoryFixed: the panics of the source's `unwrap` calls are not a path of the model. The `Printable` precondition excludes them: a key must have a second component, a file name and a parent, and all three must be valid UTF-8.

## Findings

| source | as written | input that shows it | evidently intended | confidence | as-written member | corrected member |
|---|---|---|---|---|---|---|
| src/parse_inventory.rs:15-16 | The worksheet is created on its own with `Worksheet::new()` and never pushed into the workbook, so `workbook.save` writes a workbook with one blank default sheet | any inventory, e.g. one key `/data/a.txt` with count 3 | `workbook.push_worksheet(worksheet)` before `save`, so that the file holds the header, the data rows and the TOTAL row | not executed | `ParseInventory.WriteInventory` | `ParseInventory.WriteInventoryFixed` |
| src/file_len_inventory.rs:10 | `Lines::next` turns every failed `read_line` into an error item and does not end the iteration after it, and `count()` counts those items, so a read error that repeats on every call keeps `count_lines` running forever | a file that opens but whose every read fails, e.g. with an I/O error from a failing disk | stop at the first read error and return it, which the `io::Result` return type of `count_lines` already allows | not executed | `FileLenInventory.PersistentReadErrorNeverEnds` | `FileLenInventory.FirstReadErrorEnds` |
| src/parse_inventory.rs:48 | The formula text is `SUM(D1:D` followed by the row number, with no closing parenthesis | any inventory, e.g. the empty one gives `SUM(D1:D1` | `SUM(D1:D<row>)`, which sums column D from the header row to the last data row | not executed | `ParseInventory.SumFormulaAsWrittenUnclosed` | `ParseInventory.SumFormulaRoundTrip` |
