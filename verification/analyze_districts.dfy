/** The electoral-district analysis (scripts/analyze_districts.py): the
    synthetic square districts built from the static district table, the
    assignment of stores to districts (a buffered spatial join, then the
    nearest centroid, and no forcing stage), and the per-district and
    per-borough counts. */
module AnalyzeDistricts {
  import opened Wrappers
  import opened Spatial
  import opened Tables
  import opened Utils

  // ---------------------------------------------------------------------
  // create_synthetic_districts

  /** The corner list of each district's polygon, in thousandths of a
      degree of longitude and latitude (EPSG:4326): -99.15 is -99150. */
  function DistrictCoords(): map<string, seq<Coord>>
  {
    map[
      "DISTRITO_01" := [Coord(-99150, 19500), Coord(-99100, 19500), Coord(-99100, 19550), Coord(-99150, 19550)],
      "DISTRITO_02" := [Coord(-99200, 19500), Coord(-99150, 19500), Coord(-99150, 19550), Coord(-99200, 19550)],
      "DISTRITO_03" := [Coord(-99250, 19450), Coord(-99200, 19450), Coord(-99200, 19500), Coord(-99250, 19500)],
      "DISTRITO_04" := [Coord(-99200, 19400), Coord(-99150, 19400), Coord(-99150, 19450), Coord(-99200, 19450)],
      "DISTRITO_05" := [Coord(-99150, 19400), Coord(-99100, 19400), Coord(-99100, 19450), Coord(-99150, 19450)],
      "DISTRITO_06" := [Coord(-99100, 19400), Coord(-99050, 19400), Coord(-99050, 19450), Coord(-99100, 19450)],
      "DISTRITO_07" := [Coord(-99050, 19350), Coord(-99000, 19350), Coord(-99000, 19400), Coord(-99050, 19400)],
      "DISTRITO_08" := [Coord(-99150, 19350), Coord(-99100, 19350), Coord(-99100, 19400), Coord(-99150, 19400)],
      "DISTRITO_09" := [Coord(-99100, 19300), Coord(-99050, 19300), Coord(-99050, 19350), Coord(-99100, 19350)],
      "DISTRITO_10" := [Coord(-99050, 19300), Coord(-99000, 19300), Coord(-99000, 19350), Coord(-99050, 19350)],
      "DISTRITO_11" := [Coord(-99000, 19250), Coord(-98950, 19250), Coord(-98950, 19300), Coord(-99000, 19300)],
      "DISTRITO_12" := [Coord(-99050, 19250), Coord(-99000, 19250), Coord(-99000, 19300), Coord(-99050, 19300)],
      "DISTRITO_13" := [Coord(-99150, 19200), Coord(-99100, 19200), Coord(-99100, 19250), Coord(-99150, 19250)],
      "DISTRITO_14" := [Coord(-99100, 19200), Coord(-99050, 19200), Coord(-99050, 19250), Coord(-99100, 19250)],
      "DISTRITO_15" := [Coord(-99050, 19150), Coord(-99000, 19150), Coord(-99000, 19200), Coord(-99050, 19200)],
      "DISTRITO_16" := [Coord(-99250, 19250), Coord(-99200, 19250), Coord(-99200, 19300), Coord(-99250, 19300)],
      "DISTRITO_17" := [Coord(-99200, 19300), Coord(-99150, 19300), Coord(-99150, 19350), Coord(-99200, 19350)],
      "DISTRITO_18" := [Coord(-99250, 19300), Coord(-99200, 19300), Coord(-99200, 19350), Coord(-99250, 19350)],
      "DISTRITO_19" := [Coord(-99300, 19350), Coord(-99250, 19350), Coord(-99250, 19400), Coord(-99300, 19400)],
      "DISTRITO_20" := [Coord(-99350, 19350), Coord(-99300, 19350), Coord(-99300, 19400), Coord(-99350, 19400)],
      "DISTRITO_21" := [Coord(-99300, 19300), Coord(-99250, 19300), Coord(-99250, 19350), Coord(-99300, 19350)],
      "DISTRITO_22" := [Coord(-99350, 19400), Coord(-99300, 19400), Coord(-99300, 19450), Coord(-99350, 19450)],
      "DISTRITO_23" := [Coord(-99250, 19500), Coord(-99200, 19500), Coord(-99200, 19550), Coord(-99250, 19550)],
      "DISTRITO_24" := [Coord(-99300, 19450), Coord(-99250, 19450), Coord(-99250, 19500), Coord(-99300, 19500)]]
  }

  /** The ring used for a district the coordinate table does not list. */
  const DefaultRing: seq<Coord> := [Coord(-99150, 19400), Coord(-99100, 19400), Coord(-99100, 19450), Coord(-99150, 19450)]

  /** `district_coords.get(distrito, default)`. */
  function RingFor(distrito: string): seq<Coord>
  {
    if distrito in DistrictCoords() then DistrictCoords()[distrito] else DefaultRing
  }

  /** One record of the district layer. */
  datatype District = District(
    distrito: string, alcaldia: string, diputadoGanador: string,
    votosDistrito: nat, participacion: int, geometry: seq<Coord>)

  /** The district layer and its declared reference system. */
  datatype DistrictLayer = DistrictLayer(crs: string, districts: seq<District>)

  /** The record built for one entry of the district table: its attributes
      copied, its polygon looked up by key. */
  function SyntheticDistrict(entry: (string, DistrictInfo)): District
  {
    var (distrito, data) := entry;
    District(distrito, data.alcaldia, data.diputadoGanador, data.votosDistrito, data.participacion, RingFor(distrito))
  }

  /** create_synthetic_districts: one record per district, in the table's
      order, in a layer declared in EPSG:4326. */
  method CreateSyntheticDistricts() returns (layer: DistrictLayer)
    ensures layer.crs == Wgs84
    ensures |layer.districts| == |ElectoralDistricts()|
    ensures forall i | 0 <= i < |layer.districts| :: layer.districts[i] == SyntheticDistrict(ElectoralDistricts()[i])
  {
    var districtsData := ElectoralDistricts();
    var districtGeometries: seq<District> := [];
    for i := 0 to |districtsData|
      invariant |districtGeometries| == i
      invariant forall j | 0 <= j < i :: districtGeometries[j] == SyntheticDistrict(districtsData[j])
    {
      var (distrito, data) := districtsData[i];
      var coords := RingFor(distrito);
      districtGeometries := districtGeometries + [District(distrito, data.alcaldia, data.diputadoGanador,
                                                           data.votosDistrito, data.participacion, coords)];
    }
    layer := DistrictLayer(Wgs84, districtGeometries);
  }

  /** `ring` is a square of side `side`, listed from its lower-left corner
      counter-clockwise. */
  predicate IsSquare(ring: seq<Coord>, side: int)
  {
    |ring| == 4 && ring == Corners(Rect(ring[0], Coord(ring[0].x + side, ring[0].y + side)))
  }

  /** Every listed polygon, and the default one, is a square 0.05 degrees
      on a side. */
  lemma DistrictRingsAreSquares()
    ensures forall k | k in DistrictCoords() :: IsSquare(DistrictCoords()[k], 50)
    ensures IsSquare(DefaultRing, 50)
  {
  }

  /** Every key of the district table has its own polygon, so the default
      is never used, and the records come out keyed `DISTRITO_01` to
      `DISTRITO_24` in order, each key once, each polygon a square. */
  lemma SyntheticDistrictsComplete()
    ensures forall i | 0 <= i < |ElectoralDistricts()| :: ElectoralDistricts()[i].0 in DistrictCoords()
    ensures forall i | 0 <= i < |ElectoralDistricts()| ::
      && SyntheticDistrict(ElectoralDistricts()[i]).distrito == DistrictKey(i + 1)
      && SyntheticDistrict(ElectoralDistricts()[i]).geometry == DistrictCoords()[DistrictKey(i + 1)]
      && IsSquare(SyntheticDistrict(ElectoralDistricts()[i]).geometry, 50)
    ensures forall i, j | 0 <= i < j < |ElectoralDistricts()| ::
      SyntheticDistrict(ElectoralDistricts()[i]).distrito != SyntheticDistrict(ElectoralDistricts()[j]).distrito
  {
    ElectoralDistrictsKeys();
    DistrictRingsAreSquares();
    forall i | 0 <= i < 24
      ensures ElectoralDistricts()[i].0 in DistrictCoords()
    {
      DistrictListed(i);
    }
  }

  lemma DistrictListed(i: nat)
    requires i < 24
    ensures ElectoralDistricts()[i].0 in DistrictCoords()
  {
  }

  /** The district layer as a table the engine reads: the `distrito`,
      `alcaldia` and `diputado_ganador` columns, one row per district. */
  function DistrictTable(layer: DistrictLayer): (t: Table<seq<Coord>>)
    ensures |t.rows| == |layer.districts| && HasSeatColumns(t.columns)
    ensures forall k | 0 <= k < |t.rows| ::
      SeatOf(t.rows[k]) == Seat(Some(layer.districts[k].distrito), Some(layer.districts[k].diputadoGanador))
  {
    Table({"distrito", "alcaldia", "diputado_ganador"},
      seq(|layer.districts|, k requires 0 <= k < |layer.districts| =>
        var d := layer.districts[k];
        Row(d.geometry, map["distrito" := Some(d.distrito), "alcaldia" := Some(d.alcaldia),
                            "diputado_ganador" := Some(d.diputadoGanador)])))
  }

  // ---------------------------------------------------------------------
  // assign_oxxos_to_districts

  /** The buffer, in metres of the projected frame, grown around each
      district before the spatial join. */
  const DistrictBuffer: int := 500

  /** The two columns the engine copies from a district. */
  predicate HasSeatColumns(columns: set<string>)
  {
    "distrito" in columns && "diputado_ganador" in columns
  }

  /** What a store is given: a district and its winning party, written
      together (both null while unassigned). */
  datatype Seat = Seat(distrito: Option<string>, diputadoGanador: Option<string>)

  /** The pair a store copies from district row `row`. */
  function SeatOf<G>(row: Row<G>): Seat
  {
    Seat(Cell(row, "distrito"), Cell(row, "diputado_ganador"))
  }

  /** District `j` is a spatial-join match for point `p`: its buffer meets
      the point and its `distrito` is not null (the copy loop skips null
      matches). */
  predicate DistrictHit<G>(p: Coord, districts: seq<Row<G>>, inBuffer: (Coord, G, int) -> bool, j: nat)
  {
    j < |districts| && inBuffer(p, districts[j].geometry, DistrictBuffer) && Cell(districts[j], "distrito").Some?
  }

  /** Strategy 1 for one store: the district whose pair the spatial join
      copies, the first match in table order; none for a store with no
      geometry or no match, or when the layer lacks one of the two columns
      (the column selection raises and the join is skipped). */
  function JoinedDistrict<G>(g: Option<Coord>, districts: Table<G>, inBuffer: (Coord, G, int) -> bool): (r: Option<nat>)
    ensures r.Some? ==> r.value < |districts.rows|
  {
    if !HasSeatColumns(districts.columns) || g.None? then None
    else First(|districts.rows|, (j: nat) => DistrictHit(g.value, districts.rows, inBuffer, j))
  }

  /** The pair after strategy 1 alone: a match always brings a district,
      and a store with no match keeps both cells null. */
  function JoinedSeat<G>(g: Option<Coord>, districts: Table<G>, inBuffer: (Coord, G, int) -> bool): (s: Seat)
    ensures s.distrito.Some? <==> JoinedDistrict(g, districts, inBuffer).Some?
    ensures s.distrito.None? ==> s == Seat(None, None)
  {
    match JoinedDistrict(g, districts, inBuffer)
    case Some(j) => SeatOf(districts.rows[j])
    case None => Seat(None, None)
  }

  /** Strategies 1 and 2 for one store: the join's pair; else, for a store
      with a geometry, the pair of the district whose centroid is nearest
      (the first one on a tie); a store with no geometry stays unassigned.
      `None` where the nearest-centroid lookup raises and so does its
      handler: no district to measure against, or a missing column. */
  function DistrictSeat<G>(g: Option<Coord>, districts: Table<G>,
                           inBuffer: (Coord, G, int) -> bool, centroid: G -> Coord): Option<Seat>
  {
    match JoinedDistrict(g, districts, inBuffer)
    case Some(j) => Some(SeatOf(districts.rows[j]))
    case None =>
      if g.None? then Some(Seat(None, None))
      else if HasSeatColumns(districts.columns) && |districts.rows| > 0 then
        Some(SeatOf(districts.rows[ArgMin(Distances(g.value, districts.rows, centroid))]))
      else None
  }

  /** The stores with the two columns written from `seats`. */
  function Seated<G>(t: Table<G>, seats: seq<Seat>): (r: Table<G>)
    requires |seats| == |t.rows|
    ensures r.columns == t.columns + {"distrito", "diputado_ganador"} && |r.rows| == |t.rows|
    ensures forall i | 0 <= i < |t.rows| :: r.rows[i].geometry == t.rows[i].geometry && SeatOf(r.rows[i]) == seats[i]
    ensures forall i, c | 0 <= i < |t.rows| && c != "distrito" && c != "diputado_ganador" ::
      Cell(r.rows[i], c) == Cell(t.rows[i], c)
  {
    var d := WithColumn(t, "distrito", seq(|seats|, i requires 0 <= i < |seats| => seats[i].distrito));
    WithColumn(d, "diputado_ganador", seq(|seats|, i requires 0 <= i < |seats| => seats[i].diputadoGanador))
  }

  /** assign_oxxos_to_districts as a value: `None` where the function logs
      an error and returns None. On success every store is kept, in order,
      with its geometry and every other cell, and carries the pair its two
      strategies give it. */
  function AssignDistricts<G>(oxxos: Table<Option<Coord>>, districts: Table<G>,
                              inBuffer: (Coord, G, int) -> bool, centroid: G -> Coord)
    : (r: Option<Table<Option<Coord>>>)
    ensures r.Some? ==> r.value.columns == oxxos.columns + {"distrito", "diputado_ganador"} && |r.value.rows| == |oxxos.rows|
    ensures r.Some? ==> forall i | 0 <= i < |oxxos.rows| :: r.value.rows[i].geometry == oxxos.rows[i].geometry
    ensures r.Some? ==> forall i, c | 0 <= i < |oxxos.rows| && c != "distrito" && c != "diputado_ganador" ::
      Cell(r.value.rows[i], c) == Cell(oxxos.rows[i], c)
    ensures r.Some? ==> forall i | 0 <= i < |oxxos.rows| ::
      DistrictSeat(oxxos.rows[i].geometry, districts, inBuffer, centroid) == Some(SeatOf(r.value.rows[i]))
  {
    if exists i | 0 <= i < |oxxos.rows| :: DistrictSeat(oxxos.rows[i].geometry, districts, inBuffer, centroid).None? then None
    else Some(Seated(oxxos, Seats(oxxos, districts, inBuffer, centroid)))
  }

  /** The pairs of all stores, when every store gets one. */
  function Seats<G>(oxxos: Table<Option<Coord>>, districts: Table<G>,
                    inBuffer: (Coord, G, int) -> bool, centroid: G -> Coord): (seats: seq<Seat>)
    requires forall i | 0 <= i < |oxxos.rows| :: DistrictSeat(oxxos.rows[i].geometry, districts, inBuffer, centroid).Some?
    ensures |seats| == |oxxos.rows|
    ensures forall i | 0 <= i < |oxxos.rows| :: DistrictSeat(oxxos.rows[i].geometry, districts, inBuffer, centroid) == Some(seats[i])
  {
    seq(|oxxos.rows|, i requires 0 <= i < |oxxos.rows| => DistrictSeat(oxxos.rows[i].geometry, districts, inBuffer, centroid).value)
  }

  /** assign_oxxos_to_districts: starts both columns null, copies the pair
      of the first buffered district each store meets, then gives every
      store still without a district, and with a geometry, the pair of the
      nearest centroid. Coordinates are taken as already projected. */
  method AssignOxxosToDistricts<G>(oxxos: Table<Option<Coord>>, districts: Table<G>,
                                   inBuffer: (Coord, G, int) -> bool, centroid: G -> Coord)
    returns (r: Option<Table<Option<Coord>>>)
    ensures r == AssignDistricts(oxxos, districts, inBuffer, centroid)
  {
    var n := |oxxos.rows|;
    var distrito := new Option<string>[n](_ => None);
    var diputado := new Option<string>[n](_ => None);
    var resultadoJoin := seq(n, i requires 0 <= i < n => JoinedSeat(oxxos.rows[i].geometry, districts, inBuffer));
    CopyJoinResults(distrito, diputado, resultadoJoin);
    var ok := DistrictsByProximity(distrito, diputado, oxxos, districts, inBuffer, centroid);
    if !ok {
      assert exists i | 0 <= i < n :: DistrictSeat(oxxos.rows[i].geometry, districts, inBuffer, centroid).None?;
      return None;
    }
    var seats := seq(n, i requires 0 <= i < n reads distrito, diputado => Seat(distrito[i], diputado[i]));
    assert seats == Seats(oxxos, districts, inBuffer, centroid);
    r := Some(Seated(oxxos, seats));
  }

  /** Strategy 1, the copy loop: every store whose join row carries a
      district gets that row's pair; the others are left as they were. */
  method CopyJoinResults(distrito: array<Option<string>>, diputado: array<Option<string>>, resultadoJoin: seq<Seat>)
    requires distrito != diputado && distrito.Length == diputado.Length == |resultadoJoin|
    requires forall j | 0 <= j < distrito.Length :: distrito[j].None? && diputado[j].None?
    modifies distrito, diputado
    ensures forall j | 0 <= j < distrito.Length ::
      Seat(distrito[j], diputado[j]) == if resultadoJoin[j].distrito.Some? then resultadoJoin[j] else Seat(None, None)
  {
    for i := 0 to distrito.Length
      invariant forall j | 0 <= j < i ::
        Seat(distrito[j], diputado[j]) == if resultadoJoin[j].distrito.Some? then resultadoJoin[j] else Seat(None, None)
      invariant forall j | i <= j < distrito.Length :: distrito[j].None? && diputado[j].None?
    {
      if resultadoJoin[i].distrito.Some? {
        distrito[i] := resultadoJoin[i].distrito;
        diputado[i] := resultadoJoin[i].diputadoGanador;
      }
    }
  }

  /** Strategy 2: every store still without a district that has a
      geometry gets the pair of the nearest centroid. Fails when the lookup
      cannot be made. */
  method DistrictsByProximity<G>(distrito: array<Option<string>>, diputado: array<Option<string>>,
                                 oxxos: Table<Option<Coord>>, districts: Table<G>,
                                 inBuffer: (Coord, G, int) -> bool, centroid: G -> Coord)
    returns (ok: bool)
    requires distrito != diputado && distrito.Length == diputado.Length == |oxxos.rows|
    requires forall j | 0 <= j < distrito.Length ::
      Seat(distrito[j], diputado[j]) == JoinedSeat(oxxos.rows[j].geometry, districts, inBuffer)
    modifies distrito, diputado
    ensures ok <==> forall j | 0 <= j < |oxxos.rows| :: DistrictSeat(oxxos.rows[j].geometry, districts, inBuffer, centroid).Some?
    ensures ok ==> forall j | 0 <= j < distrito.Length ::
      Some(Seat(distrito[j], diputado[j])) == DistrictSeat(oxxos.rows[j].geometry, districts, inBuffer, centroid)
  {
    var sinAsignar := distrito[..];
    for i := 0 to distrito.Length
      invariant forall j | i <= j < distrito.Length ::
        Seat(distrito[j], diputado[j]) == JoinedSeat(oxxos.rows[j].geometry, districts, inBuffer)
      invariant forall j | 0 <= j < distrito.Length :: sinAsignar[j].None? <==>
        JoinedDistrict(oxxos.rows[j].geometry, districts, inBuffer).None?
      invariant forall j | 0 <= j < i ::
        Some(Seat(distrito[j], diputado[j])) == DistrictSeat(oxxos.rows[j].geometry, districts, inBuffer, centroid)
    {
      if sinAsignar[i].None? {
        var puntoOxxo := oxxos.rows[i].geometry;
        if puntoOxxo.Some? {
          if !HasSeatColumns(districts.columns) || |districts.rows| == 0 {
            return false;
          }
          var cercano := ArgMin(Distances(puntoOxxo.value, districts.rows, centroid));
          distrito[i] := Cell(districts.rows[cercano], "distrito");
          diputado[i] := Cell(districts.rows[cercano], "diputado_ganador");
        }
      }
    }
    return true;
  }

  /** The engine fails exactly when some store has a geometry and there is
      no district to measure it against, or the layer lacks `distrito` or
      `diputado_ganador`. Stores without a geometry never make it fail:
      there is no forcing stage to trip over. */
  lemma AssignDistrictsFailsExactly<G>(oxxos: Table<Option<Coord>>, districts: Table<G>,
                                       inBuffer: (Coord, G, int) -> bool, centroid: G -> Coord)
    ensures AssignDistricts(oxxos, districts, inBuffer, centroid).None? <==>
      && (exists i | 0 <= i < |oxxos.rows| :: oxxos.rows[i].geometry.Some?)
      && (!HasSeatColumns(districts.columns) || |districts.rows| == 0)
  {
    if !HasSeatColumns(districts.columns) || |districts.rows| == 0 {
      forall i | 0 <= i < |oxxos.rows|
        ensures JoinedDistrict(oxxos.rows[i].geometry, districts, inBuffer).None?
      {
      }
    }
  }

  /** The two columns are always written together from one district row: a
      store with no geometry keeps both null, and a store with a geometry
      carries the pair of some district. */
  lemma SeatFromOneDistrict<G>(oxxos: Table<Option<Coord>>, districts: Table<G>,
                               inBuffer: (Coord, G, int) -> bool, centroid: G -> Coord, i: nat)
    requires AssignDistricts(oxxos, districts, inBuffer, centroid).Some? && i < |oxxos.rows|
    ensures oxxos.rows[i].geometry.None? ==>
      SeatOf(AssignDistricts(oxxos, districts, inBuffer, centroid).value.rows[i]) == Seat(None, None)
    ensures oxxos.rows[i].geometry.Some? ==> exists k | 0 <= k < |districts.rows| ::
      SeatOf(AssignDistricts(oxxos, districts, inBuffer, centroid).value.rows[i]) == SeatOf(districts.rows[k])
  {
    var g := oxxos.rows[i].geometry;
    var s := SeatOf(AssignDistricts(oxxos, districts, inBuffer, centroid).value.rows[i]);
    assert DistrictSeat(g, districts, inBuffer, centroid) == Some(s);
    if g.Some? {
      match JoinedDistrict(g, districts, inBuffer)
      case Some(j) =>
        assert s == SeatOf(districts.rows[j]);
      case None =>
        var k := ArgMin(Distances(g.value, districts.rows, centroid));
        assert s == SeatOf(districts.rows[k]);
    }
  }

  /** When every district has a name, a store ends up without a district
      exactly when it has no geometry. */
  lemma UnassignedIffNoGeometry<G>(oxxos: Table<Option<Coord>>, districts: Table<G>,
                                   inBuffer: (Coord, G, int) -> bool, centroid: G -> Coord)
    requires AssignDistricts(oxxos, districts, inBuffer, centroid).Some?
    requires forall k | 0 <= k < |districts.rows| :: Cell(districts.rows[k], "distrito").Some?
    ensures forall i | 0 <= i < |oxxos.rows| ::
      (Cell(AssignDistricts(oxxos, districts, inBuffer, centroid).value.rows[i], "distrito").None? <==> oxxos.rows[i].geometry.None?)
  {
    forall i | 0 <= i < |oxxos.rows|
      ensures (Cell(AssignDistricts(oxxos, districts, inBuffer, centroid).value.rows[i], "distrito").None? <==> oxxos.rows[i].geometry.None?)
    {
      SeatFromOneDistrict(oxxos, districts, inBuffer, centroid, i);
    }
  }

  /** A store whose point lies in the buffer of a named district keeps the
      pair of the first such district: proximity never revisits it. */
  lemma DistrictJoinKept<G>(oxxos: Table<Option<Coord>>, districts: Table<G>,
                            inBuffer: (Coord, G, int) -> bool, centroid: G -> Coord, i: nat, p: Coord, k: nat)
    requires AssignDistricts(oxxos, districts, inBuffer, centroid).Some?
    requires i < |oxxos.rows| && oxxos.rows[i].geometry == Some(p)
    requires k < |districts.rows| && inBuffer(p, districts.rows[k].geometry, DistrictBuffer)
    requires Cell(districts.rows[k], "distrito").Some?
    requires forall j | 0 <= j < k :: !(inBuffer(p, districts.rows[j].geometry, DistrictBuffer) && Cell(districts.rows[j], "distrito").Some?)
    ensures SeatOf(AssignDistricts(oxxos, districts, inBuffer, centroid).value.rows[i]) == SeatOf(districts.rows[k])
  {
    var s := SeatOf(AssignDistricts(oxxos, districts, inBuffer, centroid).value.rows[i]);
    assert DistrictSeat(Some(p), districts, inBuffer, centroid) == Some(s);
    assert HasSeatColumns(districts.columns);
    var hit := (j: nat) => DistrictHit(p, districts.rows, inBuffer, j);
    assert hit(k);
    var f := First(|districts.rows|, hit);
    assert f.Some? && f.value <= k;
    assert hit(f.value);
    assert f.value >= k;
    assert JoinedDistrict(Some(p), districts, inBuffer) == Some(k);
  }

  /** A store with a point that no named buffer reaches gets the pair of
      the district with the nearest centroid, the first one on a tie. */
  lemma NearestDistrictAssigned<G>(oxxos: Table<Option<Coord>>, districts: Table<G>,
                                   inBuffer: (Coord, G, int) -> bool, centroid: G -> Coord, i: nat, p: Coord, k: nat)
    requires AssignDistricts(oxxos, districts, inBuffer, centroid).Some?
    requires i < |oxxos.rows| && oxxos.rows[i].geometry == Some(p)
    requires forall j | 0 <= j < |districts.rows| ::
      !(inBuffer(p, districts.rows[j].geometry, DistrictBuffer) && Cell(districts.rows[j], "distrito").Some?)
    requires IsFirstMin(Distances(p, districts.rows, centroid), k)
    ensures SeatOf(AssignDistricts(oxxos, districts, inBuffer, centroid).value.rows[i]) == SeatOf(districts.rows[k])
  {
    var s := SeatOf(AssignDistricts(oxxos, districts, inBuffer, centroid).value.rows[i]);
    assert DistrictSeat(Some(p), districts, inBuffer, centroid) == Some(s);
    var d := Distances(p, districts.rows, centroid);
    FirstMinUnique(d, ArgMin(d), k);
    var hit := (j: nat) => DistrictHit(p, districts.rows, inBuffer, j);
    assert forall j | 0 <= j < |districts.rows| :: !hit(j);
    assert JoinedDistrict(Some(p), districts, inBuffer).None?;
  }

  /** Run on the synthetic layer (24 named districts with both columns),
      the engine never fails and leaves a store without a district exactly
      when the store has no geometry. */
  lemma SyntheticLayerAssignsAll(layer: DistrictLayer, oxxos: Table<Option<Coord>>,
                                 inBuffer: (Coord, seq<Coord>, int) -> bool, centroid: seq<Coord> -> Coord)
    requires layer.districts == seq(|ElectoralDistricts()|, i requires 0 <= i < |ElectoralDistricts()| =>
      SyntheticDistrict(ElectoralDistricts()[i]))
    ensures AssignDistricts(oxxos, DistrictTable(layer), inBuffer, centroid).Some?
    ensures forall i | 0 <= i < |oxxos.rows| ::
      (Cell(AssignDistricts(oxxos, DistrictTable(layer), inBuffer, centroid).value.rows[i], "distrito").None? <==> oxxos.rows[i].geometry.None?)
  {
    var t := DistrictTable(layer);
    ElectoralDistrictsKeys();
    AssignDistrictsFailsExactly(oxxos, t, inBuffer, centroid);
    forall k | 0 <= k < |t.rows|
      ensures Cell(t.rows[k], "distrito").Some?
    {
      assert SeatOf(t.rows[k]).distrito.Some?;
    }
    UnassignedIffNoGeometry(oxxos, t, inBuffer, centroid);
  }

  // ---------------------------------------------------------------------
  // analyze_districts_vs_alcaldias

  /** One row of `groupby('distrito').size()`. */
  datatype DistrictCount = DistrictCount(distrito: string, numOxxosDistrito: nat)

  /** One row of the per-district table after the left merge with the
      district layer: the district's record, or nothing when no record
      carries that key. */
  datatype DistrictStats = DistrictStats(distrito: string, numOxxosDistrito: nat, district: Option<District>)

  /** One row of the per-borough table: distinct districts among its stores
      (`nunique`) and its stores with a `name` (`count`). */
  datatype AlcaldiaDistricts = AlcaldiaDistricts(alcaldia: string, numDistritos: nat, numOxxosTotal: nat)

  /** The size of each `distrito` group, nulls dropped, groups in order of
      first appearance. */
  function DistrictCounts<G>(t: Table<G>): seq<DistrictCount>
  {
    var labels := Present(Column(t, "distrito"));
    var keys := Distinct(labels);
    seq(|keys|, j requires 0 <= j < |keys| => DistrictCount(keys[j], Count(keys[j], labels)))
  }

  /** The `numOxxosDistrito` column. */
  function NumOxxosDistrito(counts: seq<DistrictCount>): seq<int>
  {
    seq(|counts|, j requires 0 <= j < |counts| => counts[j].numOxxosDistrito)
  }

  /** The entries of `vals` on the rows whose key is `k`: one group's
      column. */
  function Among(k: string, keys: seq<Option<string>>, vals: seq<Option<string>>): (r: seq<Option<string>>)
    requires |keys| == |vals|
    ensures |r| == Count(Some(k), keys)
    ensures forall v :: v in r <==> exists i | 0 <= i < |keys| :: keys[i] == Some(k) && vals[i] == v
  {
    if |keys| == 0 then []
    else
      var n := |keys| - 1;
      var r := Among(k, keys[..n], vals[..n]);
      assert forall i | 0 <= i < n :: keys[..n][i] == keys[i] && vals[..n][i] == vals[i];
      if keys[n] == Some(k) then r + [vals[n]] else r
  }

  /** The per-borough table: for each borough that occurs, the number of
      distinct districts among its stores and the number of its stores with
      a name. */
  function AlcaldiaGroups<G>(t: Table<G>): seq<AlcaldiaDistricts>
  {
    var keys := Distinct(Present(Column(t, "alcaldia")));
    seq(|keys|, j requires 0 <= j < |keys| => AlcaldiaGroup(t, keys[j]))
  }

  /** The row of borough `a` in the per-borough table. */
  function AlcaldiaGroup<G>(t: Table<G>, a: string): AlcaldiaDistricts
  {
    var alc := Column(t, "alcaldia");
    AlcaldiaDistricts(a,
      |Distinct(Present(Among(a, alc, Column(t, "distrito"))))|,
      NumPresent(Among(a, alc, Column(t, "name"))))
  }

  /** analyze_districts_vs_alcaldias, its two tables: the per-district
      counts merged with the district records, and the per-borough table.
      `None` where a column it groups or counts is missing and the function
      returns its triple of Nones. */
  function AnalyzeDistrictsVsAlcaldias<G>(t: Table<G>, districts: seq<District>)
    : (r: Option<(seq<DistrictStats>, seq<AlcaldiaDistricts>)>)
    ensures r.None? <==> "distrito" !in t.columns || "alcaldia" !in t.columns || "name" !in t.columns
    ensures r.Some? ==> |r.value.1| == |Distinct(Present(Column(t, "alcaldia")))|
  {
    if "distrito" !in t.columns || "alcaldia" !in t.columns || "name" !in t.columns then None
    else
      var merged := LeftJoin(DistrictCounts(t), districts,
        (c: DistrictCount) => Some(c.distrito), (d: District) => d.distrito);
      Some((seq(|merged|, i requires 0 <= i < |merged| =>
              DistrictStats(merged[i].0.distrito, merged[i].0.numOxxosDistrito, merged[i].1)),
            AlcaldiaGroups(t)))
  }

  /** The district groups are the districts that occur, each once, with the
      number of stores that carry them, never zero. */
  lemma DistrictCountsGroups<G>(t: Table<G>)
    ensures var r := DistrictCounts(t);
      && (forall i, j | 0 <= i < j < |r| :: r[i].distrito != r[j].distrito)
      && (forall k :: (exists j | 0 <= j < |r| :: r[j].distrito == k) <==> Some(k) in Column(t, "distrito"))
      && (forall j | 0 <= j < |r| :: r[j].numOxxosDistrito == Count(Some(r[j].distrito), Column(t, "distrito")) > 0)
  {
    var r := DistrictCounts(t);
    var labels := Present(Column(t, "distrito"));
    var keys := Distinct(labels);
    forall k
      ensures (exists j | 0 <= j < |r| :: r[j].distrito == k) <==> Some(k) in Column(t, "distrito")
    {
      if k in keys {
        var j :| 0 <= j < |keys| && keys[j] == k;
        assert r[j].distrito == k;
      }
    }
    forall j | 0 <= j < |r|
      ensures r[j].numOxxosDistrito == Count(Some(r[j].distrito), Column(t, "distrito")) > 0
    {
      CountPresent(keys[j], Column(t, "distrito"));
      CountPositive(keys[j], labels);
    }
  }

  /** The per-district counts add up to the number of stores with a
      district: each is counted once. */
  lemma DistrictCountsTotal<G>(t: Table<G>)
    ensures Sum(NumOxxosDistrito(DistrictCounts(t))) == NumPresent(Column(t, "distrito"))
  {
    var labels := Present(Column(t, "distrito"));
    assert NumOxxosDistrito(DistrictCounts(t)) == CountsOf(Distinct(labels), labels);
    DistrictCountsSum(labels);
  }

  lemma DistrictCountsSum(labels: seq<string>)
    ensures Sum(CountsOf(Distinct(labels), labels)) == |labels|
  {
    DistinctCountsSum(labels);
  }

  /** Through the pipeline: once every store is seated against districts
      that all carry a name, the district groups together hold exactly the
      stores that have a location. */
  lemma DistrictTotalIsLocated<G>(oxxos: Table<Option<Coord>>, districts: Table<G>,
                                  inBuffer: (Coord, G, int) -> bool, centroid: G -> Coord)
    requires AssignDistricts(oxxos, districts, inBuffer, centroid).Some?
    requires forall k | 0 <= k < |districts.rows| :: Cell(districts.rows[k], "distrito").Some?
    ensures Sum(NumOxxosDistrito(DistrictCounts(AssignDistricts(oxxos, districts, inBuffer, centroid).value)))
      == NumPresent(Geometries(oxxos))
  {
    var t := AssignDistricts(oxxos, districts, inBuffer, centroid).value;
    UnassignedIffNoGeometry(oxxos, districts, inBuffer, centroid);
    DistrictCountsTotal(t);
    NumPresentSame(Column(t, "distrito"), Geometries(oxxos));
  }

  /** With district records keyed uniquely (as the synthetic layer's are),
      the merge keeps one row per district group, in order, with its count,
      and attaches the record carrying that key, or nothing when there is
      none. */
  lemma DistrictStatsMerged<G>(t: Table<G>, districts: seq<District>)
    requires "distrito" in t.columns && "alcaldia" in t.columns && "name" in t.columns
    requires forall i, j | 0 <= i < j < |districts| :: districts[i].distrito != districts[j].distrito
    ensures var stats := AnalyzeDistrictsVsAlcaldias(t, districts).value.0;
      var counts := DistrictCounts(t);
      && |stats| == |counts|
      && forall i | 0 <= i < |stats| ::
        && stats[i].distrito == counts[i].distrito
        && stats[i].numOxxosDistrito == counts[i].numOxxosDistrito
        && (forall d | d in districts && d.distrito == counts[i].distrito :: stats[i].district == Some(d))
        && ((forall d | d in districts :: d.distrito != counts[i].distrito) ==> stats[i].district.None?)
  {
    var counts := DistrictCounts(t);
    var lkey := (c: DistrictCount) => Some(c.distrito);
    var rkey := (d: District) => d.distrito;
    LeftJoinLookup(counts, districts, lkey, rkey);
  }

  /** The districts that the stores of borough `a` carry. */
  ghost function DistrictsIn<G>(t: Table<G>, a: string): set<string>
  {
    var alc := Column(t, "alcaldia");
    var dist := Column(t, "distrito");
    set i | 0 <= i < |alc| && alc[i] == Some(a) && dist[i].Some? :: dist[i].value
  }

  /** The borough groups are the boroughs that occur, each once. */
  lemma AlcaldiaGroupsKeys<G>(t: Table<G>)
    ensures var r := AlcaldiaGroups(t);
      && (forall i, j | 0 <= i < j < |r| :: r[i].alcaldia != r[j].alcaldia)
      && (forall k :: (exists j | 0 <= j < |r| :: r[j].alcaldia == k) <==> Some(k) in Column(t, "alcaldia"))
  {
    var r := AlcaldiaGroups(t);
    var keys := Distinct(Present(Column(t, "alcaldia")));
    forall k
      ensures (exists j | 0 <= j < |r| :: r[j].alcaldia == k) <==> Some(k) in Column(t, "alcaldia")
    {
      if k in keys {
        var j :| 0 <= j < |keys| && keys[j] == k;
        assert r[j].alcaldia == k;
      }
    }
  }

  /** For each borough: `num_distritos` is the number of distinct non-null
      districts among its stores, at most its number of stores, and
      `num_oxxos_total` counts its stores with a name, all of them when no
      name is null. */
  lemma AlcaldiaGroupCounts<G>(t: Table<G>, a: string)
    ensures var alc := Column(t, "alcaldia");
      var g := AlcaldiaGroup(t, a);
      && g.alcaldia == a
      && g.numDistritos == |DistrictsIn(t, a)|
      && g.numDistritos <= Count(Some(a), alc)
      && g.numOxxosTotal <= Count(Some(a), alc)
      && ((forall i | 0 <= i < |t.rows| :: Cell(t.rows[i], "name").Some?) ==> g.numOxxosTotal == Count(Some(a), alc))
  {
    var alc := Column(t, "alcaldia");
    var dist := Column(t, "distrito");
    var names := Column(t, "name");
    var ds := Present(Among(a, alc, dist));
    var ns := Among(a, alc, names);
    DistinctSize(ds);
    GroupDistricts(t, a);
    NumPresentFull(Among(a, alc, dist));
    DistinctNoLonger(ds);
    NumPresentFull(ns);
    if forall i | 0 <= i < |t.rows| :: Cell(t.rows[i], "name").Some? {
      forall k | 0 <= k < |ns|
        ensures ns[k].Some?
      {
        assert ns[k] in ns;
      }
    }
  }

  lemma GroupDistricts<G>(t: Table<G>, a: string)
    ensures (set d | d in Present(Among(a, Column(t, "alcaldia"), Column(t, "distrito")))) == DistrictsIn(t, a)
  {
    var alc := Column(t, "alcaldia");
    var dist := Column(t, "distrito");
    var ds := Present(Among(a, alc, dist));
    forall d
      ensures d in ds <==> d in DistrictsIn(t, a)
    {
      if d in DistrictsIn(t, a) {
        var i :| 0 <= i < |alc| && alc[i] == Some(a) && dist[i].Some? && dist[i].value == d;
        assert Some(d) in Among(a, alc, dist);
      }
    }
  }
  // ---------------------------------------------------------------------
  // A worked example

  /** Two square districts, 10 km a side and 10 km apart on one line. */
  predicate ExampleDistricts(districts: Table<Rect>)
  {
    && districts.columns == {"distrito", "diputado_ganador"}
    && |districts.rows| == 2
    && districts.rows[0] == Row(Rect(Coord(0, 0), Coord(10000, 10000)),
         map["distrito" := Some("DISTRITO_01"), "diputado_ganador" := Some("MORENA")])
    && districts.rows[1] == Row(Rect(Coord(20000, 0), Coord(30000, 10000)),
         map["distrito" := Some("DISTRITO_02"), "diputado_ganador" := Some("PAN")])
  }

  /** Three stores: one inside the first district, one with no geometry,
      and one 70 km beyond the second. */
  predicate IsDistrictExample(stores: Table<Option<Coord>>, districts: Table<Rect>)
  {
    && ExampleDistricts(districts)
    && |stores.rows| == 3
    && stores.rows[0].geometry == Some(Coord(5000, 5000))
    && stores.rows[1].geometry == None
    && stores.rows[2].geometry == Some(Coord(100000, 5000))
  }

  /** Where the example's stores lie with respect to the 500 m buffers,
      and which centroid is nearest to the distant store. */
  lemma ExampleDistrictGeometry(districts: Table<Rect>)
    requires ExampleDistricts(districts)
    ensures InRectBuffer(Coord(5000, 5000), districts.rows[0].geometry, DistrictBuffer)
    ensures forall j | 0 <= j < |districts.rows| :: !InRectBuffer(Coord(100000, 5000), districts.rows[j].geometry, DistrictBuffer)
    ensures IsFirstMin(Distances(Coord(100000, 5000), districts.rows, Center), 1)
  {
    var r0, r1 := districts.rows[0].geometry, districts.rows[1].geometry;
    InRectIsInBuffer(Coord(5000, 5000), r0, DistrictBuffer, DistrictBuffer);
    assert Gap(100000, 0, 10000) == 90000 && Gap(100000, 20000, 30000) == 70000 && Gap(5000, 0, 10000) == 0;
    assert Center(r0) == Coord(5000, 5000) && Center(r1) == Coord(25000, 5000);
    var d := Distances(Coord(100000, 5000), districts.rows, Center);
    assert d[0] == SqDist(Coord(100000, 5000), Coord(5000, 5000)) == 9025000000;
    assert d[1] == SqDist(Coord(100000, 5000), Coord(25000, 5000)) == 5625000000;
  }

  /** The example runs through both strategies: the inner store joins the
      first district, the store with no geometry stays unassigned, and the
      distant store takes the seat of the nearest centroid, the second's. */
  lemma ExampleDistrictAssignment(stores: Table<Option<Coord>>, districts: Table<Rect>)
    requires IsDistrictExample(stores, districts)
    ensures AssignDistricts(stores, districts, InRectBuffer, Center).Some?
    ensures SeatOf(AssignDistricts(stores, districts, InRectBuffer, Center).value.rows[0]) == Seat(Some("DISTRITO_01"), Some("MORENA"))
    ensures SeatOf(AssignDistricts(stores, districts, InRectBuffer, Center).value.rows[1]) == Seat(None, None)
    ensures SeatOf(AssignDistricts(stores, districts, InRectBuffer, Center).value.rows[2]) == Seat(Some("DISTRITO_02"), Some("PAN"))
  {
    AssignDistrictsFailsExactly(stores, districts, InRectBuffer, Center);
    ExampleDistrictGeometry(districts);
    assert SeatOf(districts.rows[0]) == Seat(Some("DISTRITO_01"), Some("MORENA"));
    assert SeatOf(districts.rows[1]) == Seat(Some("DISTRITO_02"), Some("PAN"));
    DistrictJoinKept(stores, districts, InRectBuffer, Center, 0, Coord(5000, 5000), 0);
    SeatFromOneDistrict(stores, districts, InRectBuffer, Center, 1);
    NearestDistrictAssigned(stores, districts, InRectBuffer, Center, 2, Coord(100000, 5000), 1);
  }
}
