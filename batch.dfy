/** The batch loop of Station-locations.py, lines 22-84: every analyte file of
    the list is skipped or turned into a CSV and a shapefile, independently of
    the others. File presence and file contents are inputs; the two output
    directories are returned as maps from file name to what was written. */
module Batch {
  import opened Wrappers
  import opened Seqs
  import opened Naming
  import opened Stations
  import opened Geometry

  /** The analyte file names of lines 22-33. */
  const AnalyteFiles: seq<string> := [
    "Coliform,Fecal.csv",
    "Coliform,Total.csv",
    "E. coli.csv",
    "Enterococcus.csv",
    "Lead, Total.csv",
    "Nickel, Dissolved.csv",
    "Selenium, Dissolved.csv",
    "Total Suspended Solids, Total.csv",
    "Turbidity, Total.csv",
    "Zinc, Dissolved.csv"
  ]

  /** One name of the list with what the input directory holds under it:
      `None` when there is no such file. */
  datatype AnalyteFile = AnalyteFile(fileName: string, contents: Option<Table>)

  /** What the loop does with one file. */
  datatype Outcome =
    | SkippedMissingFile(fileName: string)
    | SkippedMissingColumns(fileName: string, missing: seq<string>)
    | Written(csvName: string, shpName: string, csv: StationTable, shp: GeoFrame)

  /** The body of the loop for one file, lines 39-84. Only a missing file is
      skipped as missing, a skip names the file, and a write names both outputs
      after the slug, keeps the three columns with one row per station name and
      tags the points with EPSG:4326. */
  function FileOutcome(file: AnalyteFile, parse: Parser): (o: Outcome)
    ensures o.SkippedMissingFile? <==> file.contents.None?
    ensures !o.Written? ==> o.fileName == file.fileName
    ensures o.Written? ==>
      && o.csvName == BaseName(Slug(file.fileName)) + ".csv"
      && o.shpName == BaseName(Slug(file.fileName)) + ".shp"
      && o.csv.columns == KeepCols
      && UniqueNames(o.csv.rows)
      && o.shp.crs == Wgs84
  {
    match file.contents
    case None => SkippedMissingFile(file.fileName)
    case Some(table) =>
      var columns := TrimColumns(table.columns);
      var missing := MissingColumns(columns);
      if missing != [] then SkippedMissingColumns(file.fileName, missing)
      else
        MissingColumnsSpec(columns);
        var unique := Dedup(Project(columns, table.rows));
        var slug := Slug(file.fileName);
        Written(CsvName(slug), ShpName(slug), StationTable(KeepCols, unique), ToGeoFrame(unique, parse))
  }

  /** The CSV directory after some outcomes: each written CSV under its name, a
      later file overwriting an earlier one of the same name. Without a write
      the directory stays empty. */
  function CsvDirectory(outcomes: seq<Outcome>): (dir: map<string, StationTable>)
    ensures (forall i :: 0 <= i < |outcomes| ==> !outcomes[i].Written?) ==> dir == map[]
    decreases |outcomes|
  {
    if outcomes == [] then map[]
    else
      var before := CsvDirectory(outcomes[..|outcomes| - 1]);
      match outcomes[|outcomes| - 1]
      case Written(csvName, _, csv, _) => before[csvName := csv]
      case _ => before
  }

  /** The shapefile directory after some outcomes, built the same way. */
  function ShpDirectory(outcomes: seq<Outcome>): (dir: map<string, GeoFrame>)
    ensures (forall i :: 0 <= i < |outcomes| ==> !outcomes[i].Written?) ==> dir == map[]
    decreases |outcomes|
  {
    if outcomes == [] then map[]
    else
      var before := ShpDirectory(outcomes[..|outcomes| - 1]);
      match outcomes[|outcomes| - 1]
      case Written(_, shpName, _, shp) => before[shpName := shp]
      case _ => before
  }

  /** Appending an outcome writes its two files, if it has any, over the
      directories so far. */
  lemma DirectoriesAppend(outcomes: seq<Outcome>, last: Outcome)
    ensures CsvDirectory(outcomes + [last]) ==
      if last.Written? then CsvDirectory(outcomes)[last.csvName := last.csv] else CsvDirectory(outcomes)
    ensures ShpDirectory(outcomes + [last]) ==
      if last.Written? then ShpDirectory(outcomes)[last.shpName := last.shp] else ShpDirectory(outcomes)
  {
    assert (outcomes + [last])[..|outcomes|] == outcomes;
  }

  /** One more outcome, that of the next file, keeps the outcomes those of
      the files so far. */
  lemma OutcomesExtend(files: seq<AnalyteFile>, parse: Parser, outcomes: seq<Outcome>, next: Outcome)
    requires |outcomes| < |files|
    requires forall j :: 0 <= j < |outcomes| ==> outcomes[j] == FileOutcome(files[j], parse)
    requires next == FileOutcome(files[|outcomes|], parse)
    ensures forall j :: 0 <= j < |outcomes| + 1 ==> (outcomes + [next])[j] == FileOutcome(files[j], parse)
  {
  }

  /** What one iteration writes for a file that passes both checks. */
  lemma WrittenOutcome(file: AnalyteFile, parse: Parser, columns: seq<string>)
    requires file.contents.Some? && columns == TrimColumns(file.contents.value.columns)
    requires forall c :: c in KeepCols ==> c in columns
    ensures var unique := Dedup(Project(columns, file.contents.value.rows));
      FileOutcome(file, parse) == Written(CsvName(Slug(file.fileName)), ShpName(Slug(file.fileName)),
        StationTable(KeepCols, unique), GeoFrame(Features(DropMissing(CoerceCoordinates(unique, parse))), Wgs84))
  {
    MissingColumnsSpec(columns);
  }

  /** Lines 57-82 for a file that passed both checks: the deduplicated rows
      written as CSV, then coerced, filtered and turned into points. */
  method WriteOutputs(file: AnalyteFile, columns: seq<string>, parse: Parser) returns (written: Outcome)
    requires file.contents.Some? && columns == TrimColumns(file.contents.value.columns)
    requires forall c :: c in KeepCols ==> c in columns
    ensures written.Written? && written == FileOutcome(file, parse)
  {
    var unique := Dedup(Project(columns, file.contents.value.rows));
    var slug := Slug(file.fileName);
    var csv := StationTable(KeepCols, unique);
    var coerced := CoerceCoordinates(unique, parse);
    var kept := DropMissing(coerced);
    var gdf := GeoFrame(Features(kept), Wgs84);
    written := Written(CsvName(slug), ShpName(slug), csv, gdf);
    WrittenOutcome(file, parse, columns);
  }

  /** The loop of lines 38-84, run over the files in order. */
  method RunBatch(files: seq<AnalyteFile>, parse: Parser)
    returns (outcomes: seq<Outcome>, csvDir: map<string, StationTable>, shpDir: map<string, GeoFrame>)
    ensures |outcomes| == |files|
    ensures forall i :: 0 <= i < |files| ==> outcomes[i] == FileOutcome(files[i], parse)
    ensures csvDir == CsvDirectory(outcomes) && shpDir == ShpDirectory(outcomes)
  {
    outcomes, csvDir, shpDir := [], map[], map[];
    for i := 0 to |files|
      invariant |outcomes| == i
      invariant forall j :: 0 <= j < i ==> outcomes[j] == FileOutcome(files[j], parse)
      invariant csvDir == CsvDirectory(outcomes) && shpDir == ShpDirectory(outcomes)
    {
      var file := files[i];
      if file.contents.None? {
        var skipped := SkippedMissingFile(file.fileName);
        OutcomesExtend(files, parse, outcomes, skipped);
        DirectoriesAppend(outcomes, skipped);
        outcomes := outcomes + [skipped];
        continue;
      }
      var table := file.contents.value;
      var columns := TrimColumns(table.columns);
      var missing := MissingColumns(columns);
      if missing != [] {
        var skipped := SkippedMissingColumns(file.fileName, missing);
        OutcomesExtend(files, parse, outcomes, skipped);
        DirectoriesAppend(outcomes, skipped);
        outcomes := outcomes + [skipped];
        continue;
      }
      MissingColumnsSpec(columns);
      var written := WriteOutputs(file, columns, parse);
      csvDir := csvDir[written.csvName := written.csv];
      shpDir := shpDir[written.shpName := written.shp];
      OutcomesExtend(files, parse, outcomes, written);
      DirectoriesAppend(outcomes, written);
      outcomes := outcomes + [written];
    }
  }

  /** What the input directory holds under a name of the list. */
  function InputFile(inputDir: map<string, Table>, fileName: string): (file: AnalyteFile)
    ensures file.fileName == fileName
    ensures file.contents.Some? <==> fileName in inputDir
    ensures file.contents.Some? ==> file.contents.value == inputDir[fileName]
  {
    AnalyteFile(fileName, if fileName in inputDir then Some(inputDir[fileName]) else None)
  }

  /** The whole script, lines 22-84: the loop run over the fixed list of
      analyte files, with the input directory given as a map from file name to
      parsed contents. Every listed name is processed, in the listed order, and
      only the names the directory lacks are skipped as missing. */
  method RunScript(inputDir: map<string, Table>, parse: Parser)
    returns (outcomes: seq<Outcome>, csvDir: map<string, StationTable>, shpDir: map<string, GeoFrame>)
    ensures |outcomes| == |AnalyteFiles|
    ensures forall i :: 0 <= i < |AnalyteFiles| ==>
      outcomes[i] == FileOutcome(InputFile(inputDir, AnalyteFiles[i]), parse)
    ensures forall i :: 0 <= i < |AnalyteFiles| ==>
      (outcomes[i].SkippedMissingFile? <==> AnalyteFiles[i] !in inputDir)
    ensures csvDir == CsvDirectory(outcomes) && shpDir == ShpDirectory(outcomes)
  {
    var files := seq(|AnalyteFiles|, i requires 0 <= i < |AnalyteFiles| => InputFile(inputDir, AnalyteFiles[i]));
    outcomes, csvDir, shpDir := RunBatch(files, parse);
  }

  /** A file is skipped for a missing file before anything else; it is written
      exactly when it exists and its stripped headers hold the three required
      columns; otherwise it is skipped with the required columns it lacks, in
      the order of `keep_cols`. */
  lemma FileOutcomeCases(file: AnalyteFile, parse: Parser)
    ensures file.contents.None? ==> FileOutcome(file, parse) == SkippedMissingFile(file.fileName)
    ensures FileOutcome(file, parse).Written? <==>
      file.contents.Some? && forall c :: c in KeepCols ==> c in TrimColumns(file.contents.value.columns)
    ensures FileOutcome(file, parse).SkippedMissingColumns? ==>
      && file.contents.Some?
      && FileOutcome(file, parse) == SkippedMissingColumns(file.fileName, FileOutcome(file, parse).missing)
      && FileOutcome(file, parse).missing != []
      && IsSubseq(FileOutcome(file, parse).missing, KeepCols)
      && forall c :: c in FileOutcome(file, parse).missing <==>
           c in KeepCols && c !in TrimColumns(file.contents.value.columns)
    ensures file.contents.Some? && MissingColumns(TrimColumns(file.contents.value.columns)) != [] ==>
      FileOutcome(file, parse) == SkippedMissingColumns(file.fileName, MissingColumns(TrimColumns(file.contents.value.columns)))
  {
    if file.contents.Some? {
      MissingColumnsSpec(TrimColumns(file.contents.value.columns));
    }
  }

  /** What is written for a file that passes both checks: the two names share
      the base `<slug>-stations`, the CSV has exactly the three kept columns and
      the first row of every station name in input order, and the shapefile is
      built from the CSV rows. */
  lemma WrittenFile(file: AnalyteFile, parse: Parser)
    requires file.contents.Some?
    requires forall c :: c in KeepCols ==> c in TrimColumns(file.contents.value.columns)
    ensures var o, slug := FileOutcome(file, parse), Slug(file.fileName);
      var rows := Project(TrimColumns(file.contents.value.columns), file.contents.value.rows);
      && o.Written?
      && SlugShaped(slug)
      && o.csvName == BaseName(slug) + ".csv"
      && o.shpName == BaseName(slug) + ".shp"
      && o.csv.columns == KeepCols
      && IsSubseq(o.csv.rows, rows)
      && UniqueNames(o.csv.rows)
      && Names(o.csv.rows) == Names(rows)
      && (forall k :: 0 <= k < |o.csv.rows| ==>
            o.csv.rows[k].name in Names(rows) && o.csv.rows[k] == rows[FirstIndex(rows, o.csv.rows[k].name)])
      && (forall k, l :: 0 <= k < l < |o.csv.rows| ==>
            o.csv.rows[k].name in Names(rows) && o.csv.rows[l].name in Names(rows) &&
            FirstIndex(rows, o.csv.rows[k].name) < FirstIndex(rows, o.csv.rows[l].name))
      && o.shp == ToGeoFrame(o.csv.rows, parse)
  {
    var columns := TrimColumns(file.contents.value.columns);
    WrittenOutcome(file, parse, columns);
    DedupKeepsFirstOccurrence(Project(columns, file.contents.value.rows));
  }

  /** An outcome that writes a CSV of the given name. */
  ghost predicate WritesCsv(o: Outcome, name: string)
  {
    o.Written? && o.csvName == name
  }

  /** An outcome that writes a shapefile of the given name. */
  ghost predicate WritesShp(o: Outcome, name: string)
  {
    o.Written? && o.shpName == name
  }

  /** The CSV directory holds a name exactly when some file wrote it, and then
      holds what the last such file wrote. */
  lemma {:induction false} CsvDirectoryHoldsLastWrite(outcomes: seq<Outcome>, name: string)
    ensures name in CsvDirectory(outcomes) <==> exists i :: 0 <= i < |outcomes| && WritesCsv(outcomes[i], name)
    ensures forall i ::
      (&& 0 <= i < |outcomes| && WritesCsv(outcomes[i], name)
       && forall j :: i < j < |outcomes| ==> !WritesCsv(outcomes[j], name)) ==>
        name in CsvDirectory(outcomes) && CsvDirectory(outcomes)[name] == outcomes[i].csv
    decreases |outcomes|
  {
    if outcomes != [] {
      var init, last := outcomes[..|outcomes| - 1], outcomes[|outcomes| - 1];
      CsvDirectoryHoldsLastWrite(init, name);
      DirectoriesAppend(init, last);
      assert outcomes == init + [last];
      assert forall i :: 0 <= i < |init| ==> init[i] == outcomes[i];
      if WritesCsv(last, name) {
        assert WritesCsv(outcomes[|outcomes| - 1], name);
        assert CsvDirectory(outcomes)[name] == last.csv;
      } else {
        assert name in CsvDirectory(outcomes) <==> name in CsvDirectory(init);
        assert name in CsvDirectory(init) ==> CsvDirectory(outcomes)[name] == CsvDirectory(init)[name];
      }
    }
  }

  /** The shapefile directory holds a name exactly when some file wrote it,
      and then holds what the last such file wrote. */
  lemma {:induction false} ShpDirectoryHoldsLastWrite(outcomes: seq<Outcome>, name: string)
    ensures name in ShpDirectory(outcomes) <==> exists i :: 0 <= i < |outcomes| && WritesShp(outcomes[i], name)
    ensures forall i ::
      (&& 0 <= i < |outcomes| && WritesShp(outcomes[i], name)
       && forall j :: i < j < |outcomes| ==> !WritesShp(outcomes[j], name)) ==>
        name in ShpDirectory(outcomes) && ShpDirectory(outcomes)[name] == outcomes[i].shp
    decreases |outcomes|
  {
    if outcomes != [] {
      var init, last := outcomes[..|outcomes| - 1], outcomes[|outcomes| - 1];
      ShpDirectoryHoldsLastWrite(init, name);
      DirectoriesAppend(init, last);
      assert outcomes == init + [last];
      assert forall i :: 0 <= i < |init| ==> init[i] == outcomes[i];
      if WritesShp(last, name) {
        assert WritesShp(outcomes[|outcomes| - 1], name);
        assert ShpDirectory(outcomes)[name] == last.shp;
      } else {
        assert name in ShpDirectory(outcomes) <==> name in ShpDirectory(init);
        assert name in ShpDirectory(init) ==> ShpDirectory(outcomes)[name] == ShpDirectory(init)[name];
      }
    }
  }

  /** Two rows of one station followed by a row of another keep the first
      and the third. */
  lemma DedupRepeatThenOther(a: StationRow, b: StationRow)
    requires a.name != b.name
    ensures Dedup([a, a, b]) == [a, b]
  {
    assert [a, a, b][..2] == [a, a] && [a, a][..1] == [a] && [a][..0] == [];
    assert Dedup([a]) == [a];
    assert Names([a]) == {a.name};
    assert Dedup([a, a]) == [a];
    assert Names([a, a]) == {a.name};
  }

  /** The cells of a station row, in the order of `keep_cols`. */
  function RowCells(row: StationRow): seq<Cell>
  {
    [row.name, row.latitude, row.longitude]
  }

  /** Rows read under a header that is exactly `keep_cols` project to themselves. */
  lemma ProjectKeepCols(rows: seq<StationRow>, cells: seq<seq<Cell>>)
    requires |cells| == |rows|
    requires forall k :: 0 <= k < |rows| ==> cells[k] == RowCells(rows[k])
    ensures Project(KeepCols, cells) == rows
  {
    assert IndexOf(KeepCols, "StationName") == 0;
    assert IndexOf(KeepCols, "latitude") == 1;
    assert IndexOf(KeepCols, "longitude") == 2;
  }

  /** The point layer of the example rows: B is dropped for its latitude. */
  lemma GeoFrameExample(a: StationRow, b: StationRow, parse: Parser)
    requires a == StationRow(Some("A"), Some("10.0"), Some("20.0"))
    requires b.latitude == Some("bad")
    requires parse("10.0") == Some(10.0) && parse("20.0") == Some(20.0) && parse("bad") == None
    ensures ToGeoFrame([a, b], parse) == GeoFrame([Feature(Some("A"), 10.0, 20.0, Point(20.0, 10.0))], Wgs84)
  {
    var coerced := CoerceCoordinates([a, b], parse);
    var c := CoercedRow(Some("A"), Some(10.0), Some(20.0));
    assert coerced == [c, CoercedRow(b.name, None, ToNumeric(b.longitude, parse))];
    assert coerced[..1] == [c] && [c][..0] == [];
    assert !IsComplete(coerced[1]) && IsComplete(c);
    assert Filter([c], IsComplete) == [c];
    assert Filter(coerced, IsComplete) == Filter([c], IsComplete);
  }

  /** A file with header `keep_cols` and rows a, a, b of two stations writes
      the rows a and b. */
  lemma RepeatThenOtherOutcome(file: AnalyteFile, parse: Parser, a: StationRow, b: StationRow)
    requires a.name != b.name
    requires file.contents == Some(Table(KeepCols, [RowCells(a), RowCells(a), RowCells(b)]))
    ensures FileOutcome(file, parse) == Written(CsvName(Slug(file.fileName)), ShpName(Slug(file.fileName)),
      StationTable(KeepCols, [a, b]), ToGeoFrame([a, b], parse))
  {
    var table := file.contents.value;
    ProjectKeepCols([a, a, b], table.rows);
    DedupRepeatThenOther(a, b);
    KeepColsStripped(KeepCols);
    MissingColumnsSpec(KeepCols);
  }

  /** A file "X.csv" with rows (A, 10.0, 20.0), (A, 10.0, 20.0) and
      (B, bad, 30.0): the CSV "x-stations.csv" keeps A once and B, and the
      shapefile "x-stations.shp" holds one point, (20.0, 10.0) for A, since the
      latitude of B does not parse. */
  lemma EndToEndExample(file: AnalyteFile, parse: Parser, a: StationRow, b: StationRow)
    requires a == StationRow(Some("A"), Some("10.0"), Some("20.0"))
    requires b == StationRow(Some("B"), Some("bad"), Some("30.0"))
    requires file.fileName == "X.csv"
    requires file.contents == Some(Table(KeepCols, [RowCells(a), RowCells(a), RowCells(b)]))
    requires parse("10.0") == Some(10.0) && parse("20.0") == Some(20.0) && parse("bad") == None
    ensures FileOutcome(file, parse) == Written("x-stations.csv", "x-stations.shp",
      StationTable(KeepCols, [a, b]),
      GeoFrame([Feature(Some("A"), 10.0, 20.0, Point(20.0, 10.0))], Wgs84))
  {
    RepeatThenOtherOutcome(file, parse, a, b);
    SlugExampleX(file.fileName);
    OutputNamesExampleX(Slug(file.fileName));
    GeoFrameExample(a, b, parse);
  }
}
