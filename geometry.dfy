/** The point layer of one analyte file, Station-locations.py lines 70-75:
    coordinates coerced to numbers, rows without both dropped, and one point per
    remaining row built from (longitude, latitude) in WGS84. */
module Geometry {
  import opened Wrappers
  import opened Seqs
  import opened Stations

  /** How `pd.to_numeric(errors='coerce')` reads one text cell: a number, or
      nothing when the text is not numeric. The real parser is a parameter. */
  type Parser = string -> Option<real>

  /** The coordinate reference system the point layer is tagged with (line 75). */
  const Wgs84: string := "EPSG:4326"

  /** A station row after the in-place coercion of lines 70-71. */
  datatype CoercedRow = CoercedRow(name: Cell, latitude: Option<real>, longitude: Option<real>)

  /** A shapely `Point(xy)`: x is the longitude, y the latitude. */
  datatype Point = Point(x: real, y: real)

  /** One feature of the GeoDataFrame: the three columns and the geometry. */
  datatype Feature = Feature(name: Cell, latitude: real, longitude: real, geometry: Point)

  datatype GeoFrame = GeoFrame(features: seq<Feature>, crs: string)

  /** One cell through `to_numeric`: a missing cell stays missing. */
  function ToNumeric(cell: Cell, parse: Parser): (r: Option<real>)
    ensures r.Some? ==> cell.Some? && parse(cell.value) == r
    ensures cell.Some? ==> r == parse(cell.value)
  {
    match cell
    case None => None
    case Some(text) => parse(text)
  }

  /** Both coordinates of a CSV row parse. */
  predicate Parses(row: StationRow, parse: Parser)
  {
    ToNumeric(row.latitude, parse).Some? && ToNumeric(row.longitude, parse).Some?
  }

  /** Lines 70-71: the latitude and longitude columns replaced by their numeric
      values; names and row order are untouched. */
  function CoerceCoordinates(rows: seq<StationRow>, parse: Parser): (r: seq<CoercedRow>)
    ensures |r| == |rows|
    ensures forall k :: 0 <= k < |rows| ==>
      r[k] == CoercedRow(rows[k].name, ToNumeric(rows[k].latitude, parse), ToNumeric(rows[k].longitude, parse))
  {
    seq(|rows|, k requires 0 <= k < |rows| =>
      CoercedRow(rows[k].name, ToNumeric(rows[k].latitude, parse), ToNumeric(rows[k].longitude, parse)))
  }

  /** Neither coordinate is missing. */
  predicate IsComplete(row: CoercedRow)
  {
    row.latitude.Some? && row.longitude.Some?
  }

  /** `dropna(subset=['latitude', 'longitude'])`, line 72. */
  function DropMissing(rows: seq<CoercedRow>): (r: seq<CoercedRow>)
    ensures IsSubseq(r, rows)
    ensures forall k :: 0 <= k < |r| ==> IsComplete(r[k])
    ensures forall k :: 0 <= k < |rows| && IsComplete(rows[k]) ==> rows[k] in r
  {
    Filter(rows, IsComplete)
  }

  /** Line 74 and the frame of line 75: a point from (longitude, latitude) for
      every row, in order. */
  function Features(rows: seq<CoercedRow>): (r: seq<Feature>)
    requires forall k :: 0 <= k < |rows| ==> IsComplete(rows[k])
    ensures |r| == |rows|
  {
    seq(|rows|, k requires 0 <= k < |rows| && IsComplete(rows[k]) =>
      var lat, lon := rows[k].latitude.value, rows[k].longitude.value;
      Feature(rows[k].name, lat, lon, Point(lon, lat)))
  }

  /** The GeoDataFrame built from the deduplicated CSV rows. */
  function ToGeoFrame(rows: seq<StationRow>, parse: Parser): (g: GeoFrame)
    ensures g.crs == Wgs84
    ensures forall k :: 0 <= k < |g.features| ==>
      g.features[k].geometry == Point(g.features[k].longitude, g.features[k].latitude)
  {
    var kept := DropMissing(CoerceCoordinates(rows, parse));
    GeoFrame(Features(kept), Wgs84)
  }

  /** Feature `f` carries the name of CSV row `row` and the numbers its two
      coordinate cells parse to. */
  ghost predicate FromRow(f: Feature, row: StationRow, parse: Parser)
  {
    && f.name == row.name
    && ToNumeric(row.latitude, parse) == Some(f.latitude)
    && ToNumeric(row.longitude, parse) == Some(f.longitude)
  }

  /** The indices of the CSV rows whose two coordinates parse. */
  function ParsedPositions(rows: seq<StationRow>, parse: Parser): seq<nat>
  {
    Positions(CoerceCoordinates(rows, parse), IsComplete)
  }

  /** The features are exactly the CSV rows whose latitude and longitude both
      parse, in their CSV order: the k-th feature comes from the k-th such row.
      A CSV row whose coordinates do not parse has no feature. */
  lemma FeaturesAreParsedRows(rows: seq<StationRow>, parse: Parser)
    ensures var g, idx := ToGeoFrame(rows, parse).features, ParsedPositions(rows, parse);
      && |idx| == |g|
      && Increasing(idx)
      && (forall i :: 0 <= i < |rows| ==> (i in idx <==> Parses(rows[i], parse)))
      && (forall k :: 0 <= k < |g| ==> idx[k] < |rows| && FromRow(g[k], rows[idx[k]], parse))
  {
    var coerced := CoerceCoordinates(rows, parse);
    FilterSelectsPositions(coerced, IsComplete);
  }

}
