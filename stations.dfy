/** The station table of one analyte file, Station-locations.py lines 46-57:
    headers stripped of whitespace, the required-column check, the projection on
    the three kept columns and `drop_duplicates(subset=['StationName'])`. */
module Stations {
  import opened Wrappers
  import opened Seqs
  import opened Text

  /** A cell as `read_csv(dtype=str)` leaves it: text, or missing (an empty field). */
  type Cell = Option<string>

  /** An analyte file once parsed: its header row and its data rows. */
  datatype Table = Table(columns: seq<string>, rows: seq<seq<Cell>>)

  /** A row projected on `StationName, latitude, longitude`, still as text. */
  datatype StationRow = StationRow(name: Cell, latitude: Cell, longitude: Cell)

  /** The deduplicated table that is written as CSV. */
  datatype StationTable = StationTable(columns: seq<string>, rows: seq<StationRow>)

  /** `keep_cols`, line 50. */
  const KeepCols: seq<string> := ["StationName", "latitude", "longitude"]

  /** `df.columns.str.strip()`, line 47: every header loses its surrounding whitespace. */
  function TrimColumns(columns: seq<string>): (r: seq<string>)
    ensures |r| == |columns|
    ensures forall k :: 0 <= k < |r| ==> r[k] == Strip(columns[k], IsSpace)
  {
    seq(|columns|, k requires 0 <= k < |columns| => Strip(columns[k], IsSpace))
  }

  /** `[col for col in keep_cols if col not in df.columns]`, line 51: the required
      columns that are absent, in the order of `keep_cols`. */
  function MissingColumns(columns: seq<string>): (r: seq<string>)
    ensures forall c :: c in r ==> c in KeepCols && c !in columns
  {
    Filter(KeepCols, c => c !in columns)
  }

  /** The missing list is exactly the required columns the header lacks, in the
      fixed order; it is empty exactly when all three are present. */
  lemma MissingColumnsSpec(columns: seq<string>)
    ensures IsSubseq(MissingColumns(columns), KeepCols)
    ensures forall c :: c in MissingColumns(columns) <==> c in KeepCols && c !in columns
    ensures MissingColumns(columns) == [] <==> forall c :: c in KeepCols ==> c in columns
  {
    var missing := MissingColumns(columns);
    forall c ensures c in missing <==> c in KeepCols && c !in columns {
      if c in KeepCols && c !in columns {
        var i :| 0 <= i < |KeepCols| && KeepCols[i] == c;
      }
    }
    if missing != [] {
      assert missing[0] in missing;
    }
  }

  /** Headers with no whitespace at either end are left as they are. */
  lemma TrimColumnsUnchanged(columns: seq<string>)
    requires forall k :: 0 <= k < |columns| ==>
      columns[k] == [] || (!IsSpace(columns[k][0]) && !IsSpace(columns[k][|columns[k]| - 1]))
    ensures TrimColumns(columns) == columns
  {
    forall k | 0 <= k < |columns| ensures Strip(columns[k], IsSpace) == columns[k] {
      StripUnchanged(columns[k], IsSpace);
    }
  }

  /** The three required names have no surrounding whitespace. */
  lemma KeepColsStripped(columns: seq<string>)
    requires columns == KeepCols
    ensures TrimColumns(columns) == columns
  {
    assert columns[0][0] == 'S' && columns[0][10] == 'e';
    assert columns[1][0] == 'l' && columns[1][7] == 'e';
    assert columns[2][0] == 'l' && columns[2][8] == 'e';
    TrimColumnsUnchanged(columns);
  }

  /** A header that holds a required name between whitespace still provides
      that column once headers are stripped. */
  lemma PaddedHeaderCounts(columns: seq<string>, k: nat, before: string, name: string, after: string)
    requires k < |columns| && columns[k] == before + name + after
    requires name in KeepCols
    requires forall i :: 0 <= i < |before| ==> IsSpace(before[i])
    requires forall i :: 0 <= i < |after| ==> IsSpace(after[i])
    ensures name !in MissingColumns(TrimColumns(columns))
  {
    StripPadding(before, name, after, IsSpace);
    assert TrimColumns(columns)[k] == name;
    MissingColumnsSpec(TrimColumns(columns));
  }

  /** The index of the first column with a given name. */
  function IndexOf(columns: seq<string>, c: string): (i: nat)
    requires c in columns
    ensures i < |columns| && columns[i] == c
    ensures forall j :: 0 <= j < i ==> columns[j] != c
  {
    if columns[0] == c then 0 else 1 + IndexOf(columns[1..], c)
  }

  /** The cell of a row under a column; a short row reads as missing there. */
  function CellAt(row: seq<Cell>, i: nat): (c: Cell)
    ensures c.Some? ==> i < |row| && c == row[i]
    ensures i < |row| ==> c == row[i]
  {
    if i < |row| then row[i] else None
  }

  /** `df[keep_cols]`, line 57: each row reduced to its three kept cells, read
      from the columns with those names. */
  function Project(columns: seq<string>, rows: seq<seq<Cell>>): (r: seq<StationRow>)
    requires forall c :: c in KeepCols ==> c in columns
    ensures |r| == |rows|
    ensures forall k :: 0 <= k < |r| ==>
      && r[k].name == CellAt(rows[k], IndexOf(columns, "StationName"))
      && r[k].latitude == CellAt(rows[k], IndexOf(columns, "latitude"))
      && r[k].longitude == CellAt(rows[k], IndexOf(columns, "longitude"))
  {
    var n, lat, lon := IndexOf(columns, KeepCols[0]), IndexOf(columns, KeepCols[1]), IndexOf(columns, KeepCols[2]);
    seq(|rows|, k requires 0 <= k < |rows| => StationRow(CellAt(rows[k], n), CellAt(rows[k], lat), CellAt(rows[k], lon)))
  }

  /** The station names occurring in some rows. */
  function Names(rows: seq<StationRow>): set<Cell>
  {
    set k | 0 <= k < |rows| :: rows[k].name
  }

  /** No two rows share a station name. */
  ghost predicate UniqueNames(rows: seq<StationRow>)
  {
    forall k, l :: 0 <= k < l < |rows| ==> rows[k].name != rows[l].name
  }

  /** `drop_duplicates(subset=['StationName'])` with its default `keep='first'`: a
      row is kept exactly when no earlier row has its station name. Missing
      names count as one name. */
  function Dedup(rows: seq<StationRow>): (r: seq<StationRow>)
    ensures IsSubseq(r, rows)
    ensures UniqueNames(r)
    ensures Names(r) == Names(rows)
    decreases |rows|
  {
    if rows == [] then []
    else
      var init, last := rows[..|rows| - 1], rows[|rows| - 1];
      var kept := Dedup(init);
      assert rows == init + [last];
      NamesAppend(init, last);
      if last.name in Names(init) then kept
      else
        assert (kept + [last])[..|kept|] == kept;
        NamesAppend(kept, last);
        kept + [last]
  }

  /** One more row adds its station name to the names. */
  lemma NamesAppend(rows: seq<StationRow>, row: StationRow)
    ensures Names(rows + [row]) == Names(rows) + {row.name}
  {
    var all := rows + [row];
    forall n | n in Names(all) ensures n in Names(rows) + {row.name} {
      var k :| 0 <= k < |all| && all[k].name == n;
      if k < |rows| {
        assert all[k] == rows[k];
      }
    }
    forall n | n in Names(rows) ensures n in Names(all) {
      var k :| 0 <= k < |rows| && rows[k].name == n;
      assert all[k] == rows[k];
    }
    assert all[|rows|] == row;
  }

  /** The index of the first row with a given station name. */
  function FirstIndex(rows: seq<StationRow>, name: Cell): (i: nat)
    requires name in Names(rows)
    ensures i < |rows| && rows[i].name == name
    ensures forall j :: 0 <= j < i ==> rows[j].name != name
  {
    if rows[0].name == name then 0
    else
      assert name in Names(rows[1..]) by {
        var k :| 0 <= k < |rows| && rows[k].name == name;
        assert rows[1..][k - 1] == rows[k];
      }
      1 + FirstIndex(rows[1..], name)
  }

  /** One more row at the end does not move the first row of a name already seen. */
  lemma FirstIndexAppend(rows: seq<StationRow>, row: StationRow, name: Cell)
    requires name in Names(rows)
    ensures name in Names(rows + [row]) && FirstIndex(rows + [row], name) == FirstIndex(rows, name)
  {
    var all, i := rows + [row], FirstIndex(rows, name);
    NamesAppend(rows, row);
    assert all[i] == rows[i];
    assert forall j :: 0 <= j < i ==> all[j] == rows[j];
  }

  /** Every kept row is the first occurrence of its station name, with that
      occurrence's latitude and longitude, and the kept rows are in the order
      of those first occurrences. */
  lemma {:induction false} DedupKeepsFirstOccurrence(rows: seq<StationRow>)
    ensures forall k :: 0 <= k < |Dedup(rows)| ==>
      Dedup(rows)[k].name in Names(rows) && Dedup(rows)[k] == rows[FirstIndex(rows, Dedup(rows)[k].name)]
    ensures forall k, l :: 0 <= k < l < |Dedup(rows)| ==>
      Dedup(rows)[k].name in Names(rows) && Dedup(rows)[l].name in Names(rows) &&
      FirstIndex(rows, Dedup(rows)[k].name) < FirstIndex(rows, Dedup(rows)[l].name)
    decreases |rows|
  {
    if rows != [] {
      var init, last := rows[..|rows| - 1], rows[|rows| - 1];
      assert rows == init + [last];
      DedupKeepsFirstOccurrence(init);
      var kept, r := Dedup(init), Dedup(rows);
      forall k | 0 <= k < |kept|
        ensures kept[k].name in Names(init) && FirstIndex(rows, kept[k].name) == FirstIndex(init, kept[k].name)
      {
        assert kept[k].name in Names(kept);
        FirstIndexAppend(init, last, kept[k].name);
      }
      if last.name !in Names(init) {
        assert r == kept + [last];
        assert forall j :: 0 <= j < |init| ==> rows[j] == init[j];
        assert last.name in Names(rows) by { assert rows[|rows| - 1] == last; }
        assert FirstIndex(rows, last.name) == |rows| - 1;
      }
      forall k | 0 <= k < |r|
        ensures r[k].name in Names(rows) && r[k] == rows[FirstIndex(rows, r[k].name)]
      {
        if k < |kept| {
          assert r[k] == kept[k];
          assert init[FirstIndex(init, kept[k].name)] == rows[FirstIndex(init, kept[k].name)];
        }
      }
    }
  }

  /** Rows whose names are already unique are left as they are. */
  lemma {:induction false} DedupOfUnique(rows: seq<StationRow>)
    requires UniqueNames(rows)
    ensures Dedup(rows) == rows
    decreases |rows|
  {
    if rows != [] {
      var init, last := rows[..|rows| - 1], rows[|rows| - 1];
      assert UniqueNames(init) by {
        assert forall k :: 0 <= k < |init| ==> init[k] == rows[k];
      }
      DedupOfUnique(init);
      assert last.name !in Names(init) by {
        assert forall k :: 0 <= k < |init| ==> init[k].name == rows[k].name != last.name;
      }
      assert Dedup(rows) == Dedup(init) + [last];
      assert rows == init + [last];
    }
  }

  /** Deduplicating twice is deduplicating once. */
  lemma DedupIdempotent(rows: seq<StationRow>)
    ensures Dedup(Dedup(rows)) == Dedup(rows)
  {
    DedupOfUnique(Dedup(rows));
  }

}
