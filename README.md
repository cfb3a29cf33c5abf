# Station locations, modelled in Dafny

`Station-locations.py` goes through a fixed list of ten analyte files, such as
`E. coli.csv` and `Lead, Total.csv`. For each file that exists and has the
columns `StationName`, `latitude` and `longitude` (after header whitespace is
stripped), it writes two outputs:

- a CSV with one row per station name, keeping the first row seen;
- a point shapefile holding those rows whose two coordinates parse as numbers,
  each a `Point(longitude, latitude)` in EPSG:4326.

Both outputs are named after a slug of the input file name:
`<slug>-stations.csv` and `<slug>-stations.shp`.

The model has these parts:

- `seqs.dfy` (module `Seqs`): an order-keeping filter, the positions it
  keeps, and subsequences.
- `text.dfy` (module `Text`): Python's `str.strip` and `str.lower`, and the
  `\w` character class. All three are restricted to ASCII.
- `naming.dfy` (module `Naming`): the slug of line 62 and the two output names
  of lines 63 and 80.
- `stations.dfy` (module `Stations`):
  - the header strip of line 47;
  - the missing-column list of lines 50-54;
  - the projection onto the three kept columns;
  - `drop_duplicates(subset=['StationName'])` with its default `keep='first'`, line 57.
- `geometry.dfy` (module `Geometry`):
  - `pd.to_numeric(errors='coerce')` on both coordinates;
  - `dropna`;
  - the points and the CRS tag, lines 70-75.
- `batch.dfy` (module `Batch`): the loop of lines 38-84. `FileOutcome` is what
  one iteration does: skip for a missing file, skip for missing columns, or
  write two outputs. `RunBatch` is the loop itself, an imperative method. It
  records every outcome and keeps the two output directories as maps from file
  name to contents. A later write of the same name replaces an earlier one.

Three details of the code shape what the model does:

- The slug keeps `_`, because `[^\w]+` treats `_` as a word character. Only
  runs of characters outside letters, digits and `_` become a dash.
- The slug is taken from the analyte file name itself.
- The CSV is written before the coordinates are coerced (line 65). It
  therefore keeps rows whose coordinates do not parse, and the shapefile does
  not have them.

Empty CSV cells are read as missing: `read_csv(dtype=str)` gives `NaN` for
them. `drop_duplicates` treats all missing station names as one name, so cells
are `Option<string>`. A row shorter than the header reads as missing in the
cells it lacks.

## Model

| member | source | states |
|---|---|---|
| Seqs.Filter | Station-locations.py:51 | the kept elements form a subsequence of the input; every element kept passes the test, and every element that passes is kept |
| Seqs.Positions | Station-locations.py:72 | the indices it returns increase, are in range, and an index is there exactly when its element passes the test |
| Seqs.FilterSelectsPositions | Station-locations.py:72 | the k-th kept element is the input element at the k-th kept position, so the filter keeps exactly the passing elements in input order |
| Seqs.FilterConcat | Station-locations.py:62 | filtering a concatenation is concatenating the filtered parts |
| Seqs.FilterNone | Station-locations.py:62 | filtering with a test no element passes gives the empty sequence |
| Text.IsWordChar | Station-locations.py:62 | `\w` on ASCII: the letters, the digits and `_` |
| Text.IsSpace | Station-locations.py:47 | the characters `str.strip()` removes on ASCII: space, tab, line feed, vertical tab, form feed, carriage return and the four information separators |
| Text.ToLower | Station-locations.py:62 | same length; every upper-case letter becomes its lower-case letter (its code plus 32), so none remains; word characters stay word characters; every other character is unchanged |
| Text.TrimStart | Station-locations.py:47 | the result is a suffix of the input; everything removed is droppable and the result does not start with a droppable character |
| Text.TrimEnd | Station-locations.py:47 | the result is a prefix of the input; everything removed is droppable and the result does not end with a droppable character |
| Text.Strip | Station-locations.py:47 | the result is a slice of the input with only droppable characters cut from both ends, and neither of its ends is droppable |
| Text.StripSplit | Station-locations.py:47 | the input is the removed leading characters, then the result, then the removed trailing characters |
| Text.StripUnchanged | Station-locations.py:47 | a string that neither starts nor ends with a droppable character is unchanged |
| Text.TrimStartRun | Station-locations.py:47 | trimming removes a whole leading run of droppable characters and stops at the first kept one |
| Text.TrimEndRun | Station-locations.py:47 | trimming removes a whole trailing run of droppable characters and stops at the last kept one |
| Text.StripPadding | Station-locations.py:47 | a core between runs of droppable characters is exactly what strip returns |
| Naming.RemoveCsv | Station-locations.py:62 | removing `.csv` never makes the name longer |
| Naming.RemoveCsvDropsExtension | Station-locations.py:62 | a trailing `.csv` is removed: `RemoveCsv(t + ".csv") == RemoveCsv(t)` |
| Naming.RemoveCsvDeletesOccurrence | Station-locations.py:62 | every `.csv` the pass meets is deleted, wherever it stands: `RemoveCsv(a + ".csv" + b) == RemoveCsv(a) + RemoveCsv(b)` |
| Naming.RemoveCsvWithoutCsv | Station-locations.py:62 | a name with no `.csv` in it is left unchanged |
| Naming.RemoveCsvSinglePass | Station-locations.py:62 | `replace` makes a single pass: `.c.csvsv` becomes `.csv`, and the new occurrence stays |
| Naming.CollapseNonWord | Station-locations.py:62 | the result holds only word characters and `-`, never two dashes in a row, and keeps a leading word character |
| Naming.CollapseKeepsWords | Station-locations.py:62 | the substitution keeps every word character, in order |
| Naming.CollapseSeparated | Station-locations.py:62 | a string of word characters and single dashes is unchanged by the substitution |
| Naming.CollapseJoined | Station-locations.py:62 | words separated by runs of non-word characters become the same words separated by single dashes |
| Naming.SlugOfStem | Station-locations.py:62 | the slug of `<stem>.csv` is the lower-cased collapse of the stem, when the stem holds no `.csv` and the collapse has no dash at either end |
| Naming.Slug | Station-locations.py:62 | the slug contains only lower-case word characters and single dashes, and does not start or end with `-` |
| Naming.SlugFixesSlugs | Station-locations.py:62 | a string already of that shape is its own slug |
| Naming.SlugIdempotent | Station-locations.py:62 | slugging a slug gives it back |
| Naming.SlugKeepsWords | Station-locations.py:62 | the slug's word characters are those of the name without `.csv`, lower-cased, in order |
| Naming.StripDashesKeepsWords | Station-locations.py:62 | `strip('-')` keeps every word character |
| Naming.LowerCommutesWithWords | Station-locations.py:62 | lower-casing and then keeping the word characters is the same as doing it the other way round |
| Naming.SlugExampleEColi | Station-locations.py:25 | `E. coli.csv` gives `e-coli` |
| Naming.SlugExampleSolids | Station-locations.py:30 | `Total Suspended Solids, Total.csv` gives `total-suspended-solids-total` |
| Naming.SlugExampleX | Station-locations.py:62 | `X.csv` gives `x` |
| Naming.CsvName | Station-locations.py:63 | the CSV name is `<slug>-stations` followed by `.csv` |
| Naming.ShpName | Station-locations.py:80 | the shapefile name is `<slug>-stations` followed by `.shp` |
| Naming.OutputNamesPair | Station-locations.py:63-80 | both names share the base `<slug>-stations` and differ only in the extension; a CSV name is never a shapefile name; different slugs give different CSV names |
| Naming.OutputNamesExampleX | Station-locations.py:63-80 | slug `x` gives `x-stations.csv` and `x-stations.shp` |
| Stations.TrimColumns | Station-locations.py:47 | every header is replaced by its whitespace-stripped form, and the number of headers does not change |
| Stations.TrimColumnsUnchanged | Station-locations.py:47 | headers with no whitespace at either end are left as they are |
| Stations.KeepColsStripped | Station-locations.py:47-50 | the three required names are unchanged by stripping |
| Stations.MissingColumns | Station-locations.py:51 | only required names that the headers lack are reported (the converse and the order are MissingColumnsSpec) |
| Stations.MissingColumnsSpec | Station-locations.py:50-52 | the missing list keeps the order of `keep_cols`; a name is in it exactly when it is required and absent from the headers; it is empty exactly when all three are present |
| Stations.PaddedHeaderCounts | Station-locations.py:47-51 | a required name surrounded by whitespace in the file's header does not count as missing |
| Stations.IndexOf | Station-locations.py:57 | the first header with a given name |
| Stations.CellAt | Station-locations.py:46-57 | the cell under a column index is the row's cell there; a row too short for it reads as missing, as pandas pads it with `NaN` |
| Stations.Project | Station-locations.py:57 | one row out per row in; each kept cell is read from the first column of that name, and reads as missing when the row is too short |
| Stations.Dedup | Station-locations.py:57 | the result is a subsequence of the rows; no two result rows share a station name; every station name of the input is kept (which rows, and in what order, is DedupKeepsFirstOccurrence) |
| Stations.NamesAppend | Station-locations.py:57 | one more row adds exactly its station name to the names seen |
| Stations.FirstIndex | Station-locations.py:57 | the first row with a given station name |
| Stations.DedupKeepsFirstOccurrence | Station-locations.py:57 | every kept row is the first input row with its station name, latitude and longitude included, and the kept rows come in the order of those first rows |
| Stations.DedupOfUnique | Station-locations.py:57 | rows whose station names are already distinct are unchanged |
| Stations.DedupIdempotent | Station-locations.py:57 | deduplicating twice is deduplicating once |
| Geometry.CoerceCoordinates | Station-locations.py:70-71 | the same rows in the same order: names untouched, and each coordinate replaced by its parse, or missing when the cell is missing or does not parse |
| Geometry.ToNumeric | Station-locations.py:70-71 | a cell yields a number only when it holds text the parser reads as that number; a missing cell stays missing |
| Geometry.DropMissing | Station-locations.py:72 | the kept rows are a subsequence of the input, all with both coordinates, and every row with both coordinates is kept |
| Geometry.Features | Station-locations.py:74 | one feature per row |
| Geometry.ToGeoFrame | Station-locations.py:74-75 | the layer is tagged EPSG:4326, and every point has x = longitude and y = latitude |
| Geometry.FeaturesAreParsedRows | Station-locations.py:70-75 | the features are exactly the CSV rows whose two coordinates parse, in CSV order, each with that row's name and parsed numbers; a row that does not parse has no feature |
| Batch.DirectoriesAppend | Station-locations.py:65-82 | a skipped file leaves both output directories unchanged; a written file puts its CSV and its shapefile under their names |
| Batch.FileOutcome | Station-locations.py:39-84 | only a missing file is skipped as missing; a skip names the file; a write names both outputs after the slug, keeps the three columns with one row per station name, and tags the points with EPSG:4326 |
| Batch.CsvDirectory | Station-locations.py:63-65 | the CSV directory is the writes applied in order, and stays empty when no file is written |
| Batch.ShpDirectory | Station-locations.py:80-82 | the shapefile directory is the writes applied in order, and stays empty when no file is written |
| Batch.RunBatch | Station-locations.py:38-84 | one outcome per listed file, in order, each decided from that file alone; the directories are those the outcomes write |
| Batch.InputFile | Station-locations.py:39-46 | a listed name has contents exactly when the input directory holds a file of that name, and then has that file's contents |
| Batch.RunScript | Station-locations.py:22-84 | the loop runs over the ten listed analyte files in their order; each outcome is that of the listed file, only the names the input directory lacks are skipped as missing, and the directories are those the outcomes write |
| Batch.FileOutcomeCases | Station-locations.py:41-54 | a missing file is skipped first; a file is written exactly when it exists and its stripped headers hold all three columns; an existing file that lacks some is skipped with the non-empty list of the required columns it lacks, in the order of `keep_cols`, and with no other list |
| Batch.WrittenFile | Station-locations.py:57-82 | a file that passes both checks writes `<slug>-stations.csv` and `<slug>-stations.shp`. The CSV has exactly the three columns and the first row of every station name, ordered by where those first rows stand in the input. The shapefile is built from the CSV rows |
| Batch.CsvDirectoryHoldsLastWrite | Station-locations.py:63-65 | a CSV name is in the output directory exactly when some file wrote it, and then it holds what the last such file wrote |
| Batch.ShpDirectoryHoldsLastWrite | Station-locations.py:80-82 | a shapefile name is in the output directory exactly when some file wrote it, and then it holds what the last such file wrote |
| Batch.DedupRepeatThenOther | Station-locations.py:57 | rows a, a, b of two stations deduplicate to a, b |
| Batch.ProjectKeepCols | Station-locations.py:57 | rows read under the header `StationName, latitude, longitude` project to themselves |
| Batch.GeoFrameExample | Station-locations.py:70-75 | rows A (10.0, 20.0) and B (bad, …) give one feature, at Point(20.0, 10.0) for A |
| Batch.RepeatThenOtherOutcome | Station-locations.py:46-82 | a file with rows a, a, b writes the rows a and b, and the shapefile built from them |
| Batch.EndToEndExample | Station-locations.py:38-84 | `X.csv` with rows A, A and B(bad latitude) writes `x-stations.csv` with A and B, and `x-stations.shp` with one point, (20.0, 10.0) for A |

## Left out

- Filesystem work is not modelled: `os.makedirs`, `os.path.isfile` and path joins (lines 10-17, 39, 41, 64, 81). File presence is an input: the input directory is a map from file name to parsed contents (Batch.RunScript), and `contents` is `None` for a missing file. The writes of lines 65 and 82 become the returned outcome and the two directory maps.
- The `pd.read_csv` tokenizer (line 46) is not modelled. A file arrives as a parsed header and rows of optional text cells.
- Geometry.CoerceCoordinates: numeric parsing is a parameter `parse: string -> Option<real>`, not the floating-point rules of `pd.to_numeric`.
- The internals of shapely's `Point` and of a GeoDataFrame are not modelled beyond the (longitude, latitude) pair, the row's three columns and the CRS string. The shapefile encoding is left out.
- The console messages of lines 42, 53, 84 and 86 are left out; they only log.
- Text.ToLower and Naming.CollapseNonWord cover ASCII only. Python's `\w`, `str.lower` and `str.strip` are Unicode-aware, and non-ASCII letters are not modelled.
- Headers that repeat a name after stripping are not modelled. For a repeated required name, pandas would select several columns. The model reads the first column of that name.
- The pandas row index and the `index=False` flag of line 65 are not modelled. The CSV is its three columns and its rows.
- Distinctness of the ten slugs of the fixed file list is not proved. The model only states that a later write of a name replaces an earlier one (Batch.CsvDirectoryHoldsLastWrite).
