/** The main processing script (scripts/process_data.py): loading and
    cleaning the borough (alcaldía) and store (Oxxo) layers, the synthetic
    electoral table, the three-stage engine that gives every store a
    borough, the per-borough counts, and the final merge of all three. */
module ProcessData {
  import opened Wrappers
  import opened Spatial
  import opened Tables
  import opened Utils

  // ---------------------------------------------------------------------
  // Name cleaning: `.str.upper().str.strip()`

  /** Python's `str.isspace` on one character. */
  predicate IsSpace(c: char)
  {
    var n := c as int;
    || 0x09 <= n <= 0x0D || 0x1C <= n <= 0x20 || n == 0x85 || n == 0xA0
    || n == 0x1680 || 0x2000 <= n <= 0x200A || n == 0x2028 || n == 0x2029
    || n == 0x202F || n == 0x205F || n == 0x3000
  }

  /** `str.upper` on one character, for ASCII and the Latin-1 letters (the
      accented capitals of Spanish place names live there). */
  function UpperChar(c: char): char
  {
    var n := c as int;
    if 0x61 <= n <= 0x7A || (0xE0 <= n <= 0xFE && n != 0xF7) then (n - 0x20) as char else c
  }

  function Upper(s: string): string
  {
    seq(|s|, i requires 0 <= i < |s| => UpperChar(s[i]))
  }

  /** `s` has no character `Upper` would change. */
  predicate IsUpper(s: string)
  {
    forall i | 0 <= i < |s| :: UpperChar(s[i]) == s[i]
  }

  /** `str.lstrip`: drops the leading whitespace and nothing else. */
  function StripLeft(s: string): (r: string)
    ensures |r| <= |s| && r == s[|s| - |r|..]
    ensures forall j | 0 <= j < |s| - |r| :: IsSpace(s[j])
    ensures |r| > 0 ==> !IsSpace(r[0])
  {
    if |s| > 0 && IsSpace(s[0]) then StripLeft(s[1..]) else s
  }

  /** `str.rstrip`: drops the trailing whitespace and nothing else. */
  function StripRight(s: string): (r: string)
    ensures |r| <= |s| && r == s[..|r|]
    ensures forall j | |r| <= j < |s| :: IsSpace(s[j])
    ensures |r| > 0 ==> !IsSpace(r[|r| - 1])
  {
    if |s| > 0 && IsSpace(s[|s| - 1]) then StripRight(s[..|s| - 1]) else s
  }

  /** Every character of `s` before position `a` and from position `b` on
      is whitespace. */
  predicate BlankOutside(s: string, a: nat, b: nat)
    requires a <= b <= |s|
  {
    && (forall j | 0 <= j < a :: IsSpace(s[j]))
    && (forall j | b <= j < |s| :: IsSpace(s[j]))
  }

  /** Stripping the front, then the back, leaves a middle slice with only
      whitespace outside it and none at its ends. */
  lemma {:induction false} StripParts(s: string, l: string, r: string)
    requires |l| <= |s| && l == s[|s| - |l|..] && forall j | 0 <= j < |s| - |l| :: IsSpace(s[j])
    requires |l| > 0 ==> !IsSpace(l[0])
    requires |r| <= |l| && r == l[..|r|] && forall j | |r| <= j < |l| :: IsSpace(l[j])
    requires |r| > 0 ==> !IsSpace(r[|r| - 1])
    ensures exists a, b | 0 <= a <= b <= |s| :: r == s[a..b] && BlankOutside(s, a, b)
    ensures |r| > 0 ==> !IsSpace(r[0]) && !IsSpace(r[|r| - 1])
    ensures forall c | c in r :: c in s
    ensures (|s| == 0 || (!IsSpace(s[0]) && !IsSpace(s[|s| - 1]))) ==> r == s
  {
    var a := |s| - |l|;
    forall j | a + |r| <= j < |s|
      ensures IsSpace(s[j])
    {
      assert s[j] == l[j - a];
    }
    assert r == s[a..a + |r|] && BlankOutside(s, a, a + |r|);
    assert forall c | c in r :: c in l;
  }

  /** `str.strip`: the result is the contiguous middle `s[a..b]` of `s`,
      everything outside it is whitespace, and it neither starts nor ends
      with whitespace; so it is `s` itself when there was nothing to strip. */
  function Strip(s: string): (r: string)
    ensures exists a, b | 0 <= a <= b <= |s| :: r == s[a..b] && BlankOutside(s, a, b)
    ensures |r| > 0 ==> !IsSpace(r[0]) && !IsSpace(r[|r| - 1])
    ensures forall c | c in r :: c in s
    ensures (|s| == 0 || (!IsSpace(s[0]) && !IsSpace(s[|s| - 1]))) ==> r == s
  {
    var l := StripLeft(s);
    var r := StripRight(l);
    StripParts(s, l, r);
    r
  }

  /** The normal form of a borough name: upper case, no surrounding blanks. */
  function Clean(s: string): string
  {
    Strip(Upper(s))
  }

  /** `Clean` on a cell that may be null (`.str` methods keep nulls). */
  function CleanCell(o: Option<string>): Option<string>
  {
    match o
    case None => None
    case Some(s) => Some(Clean(s))
  }

  /** Cleaning a name a second time changes nothing: a cleaned name is in
      normal form. */
  lemma CleanIdempotent(s: string)
    ensures Clean(Clean(s)) == Clean(s)
  {
    var t := Upper(s);
    var u := Strip(t);
    forall i | 0 <= i < |u|
      ensures UpperChar(u[i]) == u[i]
    {
      assert u[i] in t;
    }
    assert Upper(u) == u;
  }

  /** A name already in normal form is its own cleaning. */
  lemma CleanFixes(s: string)
    requires IsUpper(s)
    requires |s| == 0 || (!IsSpace(s[0]) && !IsSpace(s[|s| - 1]))
    ensures Clean(s) == s
  {
    assert Upper(s) == s;
  }

  lemma CleanCellIdempotent(o: Option<string>)
    ensures CleanCell(CleanCell(o)) == CleanCell(o)
  {
    if o.Some? {
      CleanIdempotent(o.value);
    }
  }

  // ---------------------------------------------------------------------
  // load_alcaldias_data

  /** The first of `candidates` that is a column of the table, as the
      scripts' `if ... elif ...` chains over column names choose. */
  function FirstPresent(columns: set<string>, candidates: seq<string>): (c: Option<string>)
    ensures c.None? <==> forall k | 0 <= k < |candidates| :: candidates[k] !in columns
    ensures c.Some? ==> c.value in columns
    ensures forall k | 0 <= k < |candidates| && candidates[k] in columns ::
      (forall j | 0 <= j < k :: candidates[j] !in columns) ==> c == Some(candidates[k])
  {
    if |candidates| == 0 then None
    else if candidates[0] in columns then Some(candidates[0])
    else
      var rest := candidates[1..];
      assert forall k | 0 <= k < |rest| :: rest[k] == candidates[k + 1];
      FirstPresent(columns, rest)
  }

  /** The column load_alcaldias_data takes borough names from: `nomgeo`,
      else `nombre`, else `alcaldia` itself. */
  function NameSource(columns: set<string>): (c: Option<string>)
    ensures "nomgeo" in columns ==> c == Some("nomgeo")
    ensures "nomgeo" !in columns && "nombre" in columns ==> c == Some("nombre")
    ensures "nomgeo" !in columns && "nombre" !in columns && "alcaldia" in columns ==> c == Some("alcaldia")
    ensures c.None? <==> "nomgeo" !in columns && "nombre" !in columns && "alcaldia" !in columns
  {
    var cands := ["nomgeo", "nombre", "alcaldia"];
    assert cands[0] == "nomgeo" && cands[1] == "nombre" && cands[2] == "alcaldia";
    FirstPresent(columns, cands)
  }

  /** load_alcaldias_data after the file is read: an empty layer or one with
      no name column is refused; otherwise the geometries are repaired and
      the `alcaldia` column is (re)written with the cleaned names. */
  function LoadAlcaldias<G>(t: Table<G>, isValid: G -> bool, repair: G -> G): (r: Option<Table<G>>)
    ensures r.None? <==> |t.rows| == 0 || NameSource(t.columns).None?
    ensures r.Some? ==> r.value.columns == t.columns + {"alcaldia"} && |r.value.rows| == |t.rows|
    ensures r.Some? ==> Geometries(r.value) == Repaired(Geometries(t), isValid, repair)
    ensures r.Some? ==> forall i | 0 <= i < |t.rows| ::
      Cell(r.value.rows[i], "alcaldia") == CleanCell(Cell(t.rows[i], NameSource(t.columns).value))
    ensures r.Some? ==> forall i, c | 0 <= i < |t.rows| && c != "alcaldia" :: Cell(r.value.rows[i], c) == Cell(t.rows[i], c)
  {
    if |t.rows| == 0 then None
    else match NameSource(t.columns)
      case None => None
      case Some(src) =>
        var v := RepairTable(t, isValid, repair);
        var r := WithColumn(v, "alcaldia", seq(|v.rows|, i requires 0 <= i < |v.rows| => CleanCell(Cell(v.rows[i], src))));
        assert Geometries(r) == Geometries(v);
        Some(r)
  }

  /** Every name a loaded borough table carries is already in normal form,
      so cleaning it again (as the assignment engine does) is harmless. */
  lemma LoadedNamesAreClean<G>(t: Table<G>, isValid: G -> bool, repair: G -> G)
    requires LoadAlcaldias(t, isValid, repair).Some?
    ensures forall i | 0 <= i < |t.rows| ::
      CleanCell(Cell(LoadAlcaldias(t, isValid, repair).value.rows[i], "alcaldia"))
        == Cell(LoadAlcaldias(t, isValid, repair).value.rows[i], "alcaldia")
  {
    var a := LoadAlcaldias(t, isValid, repair).value;
    var src := NameSource(t.columns).value;
    forall i | 0 <= i < |t.rows|
      ensures CleanCell(Cell(a.rows[i], "alcaldia")) == Cell(a.rows[i], "alcaldia")
    {
      CleanCellIdempotent(Cell(t.rows[i], src));
    }
  }

  // ---------------------------------------------------------------------
  // load_oxxos_data

  /** The store name used when none is recorded. */
  const DefaultName: string := "OXXO"

  /** The column store addresses are read from: `direccion`, else
      `addr:street`, else `addr_street`. */
  function AddressSource(columns: set<string>): (c: Option<string>)
    ensures "direccion" in columns ==> c == Some("direccion")
    ensures "direccion" !in columns && "addr:street" in columns ==> c == Some("addr:street")
    ensures "direccion" !in columns && "addr:street" !in columns && "addr_street" in columns ==> c == Some("addr_street")
    ensures c.None? <==> "direccion" !in columns && "addr:street" !in columns && "addr_street" !in columns
  {
    var cands := ["direccion", "addr:street", "addr_street"];
    assert cands[0] == "direccion" && cands[1] == "addr:street" && cands[2] == "addr_street";
    FirstPresent(columns, cands)
  }

  /** The address of one store: the source cell with nulls read as empty,
      or empty when there is no address column at all. */
  function Address<G>(row: Row<G>, columns: set<string>): string
  {
    match AddressSource(columns)
    case None => ""
    case Some(c) => Cell(row, c).GetOr("")
  }

  /** The defaults load_oxxos_data writes: a `name` with nulls (or a missing
      column) read as "OXXO", and a `direccion` taken from the address
      source with nulls read as "". Nothing else changes. */
  function WithDefaults<G>(t: Table<G>): (r: Table<G>)
    ensures r.columns == t.columns + {"name", "direccion"} && |r.rows| == |t.rows|
    ensures forall i | 0 <= i < |t.rows| ::
      && r.rows[i].geometry == t.rows[i].geometry
      && Cell(r.rows[i], "name") == Some(Cell(t.rows[i], "name").GetOr(DefaultName))
      && Cell(r.rows[i], "direccion") == Some(Address(t.rows[i], t.columns))
    ensures forall i, c | 0 <= i < |t.rows| && c != "name" && c != "direccion" :: Cell(r.rows[i], c) == Cell(t.rows[i], c)
  {
    var named := WithColumn(t, "name", seq(|t.rows|, i requires 0 <= i < |t.rows| =>
      Some(Cell(t.rows[i], "name").GetOr(DefaultName))));
    WithColumn(named, "direccion", seq(|t.rows|, i requires 0 <= i < |t.rows| =>
      Some(Address(t.rows[i], t.columns))))
  }

  /** The positions of the rows whose geometry passes the validity test,
      in increasing order. */
  function ValidPositions<G>(rows: seq<Row<G>>, isValid: G -> bool): (idx: seq<nat>)
    ensures |idx| <= |rows|
    ensures forall j | 0 <= j < |idx| :: idx[j] < |rows|
  {
    if |rows| == 0 then []
    else
      ValidPositions(rows[..|rows| - 1], isValid)
        + (if isValid(rows[|rows| - 1].geometry) then [|rows| - 1] else [])
  }

  /** The valid positions are strictly increasing and each holds a valid
      row. */
  lemma {:induction false} ValidPositionsExact<G>(rows: seq<Row<G>>, isValid: G -> bool)
    ensures forall j | 0 <= j < |ValidPositions(rows, isValid)| ::
      isValid(rows[ValidPositions(rows, isValid)[j]].geometry)
    ensures forall j, k | 0 <= j < k < |ValidPositions(rows, isValid)| ::
      ValidPositions(rows, isValid)[j] < ValidPositions(rows, isValid)[k]
  {
    if |rows| > 0 {
      var p := rows[..|rows| - 1];
      ValidPositionsExact(p, isValid);
      var at := ValidPositions(p, isValid);
      var idx := ValidPositions(rows, isValid);
      assert idx == at + (if isValid(rows[|rows| - 1].geometry) then [|rows| - 1] else []);
      forall j | 0 <= j < |idx|
        ensures isValid(rows[idx[j]].geometry)
      {
        if j < |at| {
          assert idx[j] == at[j] && rows[at[j]] == p[at[j]];
        }
      }
      forall j, k | 0 <= j < k < |idx|
        ensures idx[j] < idx[k]
      {
        if k >= |at| {
          assert idx[j] == at[j] < |p|;
        }
      }
    }
  }

  /** Every valid row's position is listed. */
  lemma {:induction false} ValidPositionsComplete<G>(rows: seq<Row<G>>, isValid: G -> bool)
    ensures forall i | 0 <= i < |rows| && isValid(rows[i].geometry) :: i in ValidPositions(rows, isValid)
  {
    if |rows| > 0 {
      var p := rows[..|rows| - 1];
      ValidPositionsComplete(p, isValid);
      assert forall i | 0 <= i < |p| :: rows[i] == p[i];
    }
  }

  /** The rows whose geometry passes the validity test, in order and with
      their multiplicity (`gdf[gdf.geometry.is_valid]`): the `j`-th kept row
      is the row at the `j`-th valid position. */
  function KeepValid<G(!new)>(rows: seq<Row<G>>, isValid: G -> bool): (r: seq<Row<G>>)
    ensures |r| == |ValidPositions(rows, isValid)|
    ensures forall j | 0 <= j < |r| :: r[j] == rows[ValidPositions(rows, isValid)[j]]
    ensures |r| <= |rows|
    ensures (forall i | 0 <= i < |rows| :: isValid(rows[i].geometry)) ==> r == rows
  {
    if |rows| == 0 then []
    else
      var p := rows[..|rows| - 1];
      var kept := KeepValid(p, isValid);
      KeepValidExtend(rows, isValid, kept);
      kept + (if isValid(rows[|rows| - 1].geometry) then [rows[|rows| - 1]] else [])
  }

  /** One step of the filter: the rows kept from all but the last row,
      followed by the last row when it is valid, are the rows at the valid
      positions. */
  lemma {:induction false} KeepValidExtend<G>(rows: seq<Row<G>>, isValid: G -> bool, kept: seq<Row<G>>)
    requires |rows| > 0
    requires var at := ValidPositions(rows[..|rows| - 1], isValid);
      |kept| == |at| && forall j | 0 <= j < |kept| :: kept[j] == rows[..|rows| - 1][at[j]]
    requires |kept| <= |rows| - 1
    requires (forall i | 0 <= i < |rows| - 1 :: isValid(rows[i].geometry)) ==> kept == rows[..|rows| - 1]
    ensures var r := kept + (if isValid(rows[|rows| - 1].geometry) then [rows[|rows| - 1]] else []);
      && |r| == |ValidPositions(rows, isValid)|
      && (forall j | 0 <= j < |r| :: r[j] == rows[ValidPositions(rows, isValid)[j]])
      && |r| <= |rows|
      && ((forall i | 0 <= i < |rows| :: isValid(rows[i].geometry)) ==> r == rows)
  {
    var p := rows[..|rows| - 1];
    var x := rows[|rows| - 1];
    var at := ValidPositions(p, isValid);
    var tail := if isValid(x.geometry) then [x] else [];
    var r := kept + tail;
    var idx := ValidPositions(rows, isValid);
    assert idx == at + (if isValid(x.geometry) then [|rows| - 1] else []);
    forall j | 0 <= j < |r|
      ensures r[j] == rows[idx[j]]
    {
      if j < |kept| {
        assert r[j] == kept[j] == p[at[j]];
        assert idx[j] == at[j];
      }
    }
    if forall i | 0 <= i < |rows| :: isValid(rows[i].geometry) {
      assert isValid(x.geometry);
      assert kept == p;
      assert rows == p + [x];
    }
  }

  /** A row is kept exactly when it is one of the rows and its geometry is
      valid: the filter neither loses a valid row nor invents one. */
  lemma {:induction false} KeepValidMembers<G(!new)>(rows: seq<Row<G>>, isValid: G -> bool)
    ensures forall x :: x in KeepValid(rows, isValid) <==> x in rows && isValid(x.geometry)
  {
    var r := KeepValid(rows, isValid);
    var at := ValidPositions(rows, isValid);
    ValidPositionsExact(rows, isValid);
    ValidPositionsComplete(rows, isValid);
    forall x | x in rows && isValid(x.geometry)
      ensures x in r
    {
      var i :| 0 <= i < |rows| && rows[i] == x;
      var j :| 0 <= j < |at| && at[j] == i;
      assert r[j] == x;
    }
    forall x | x in r
      ensures x in rows && isValid(x.geometry)
    {
      var j :| 0 <= j < |r| && r[j] == x;
      assert x == rows[at[j]];
    }
  }

  /** load_oxxos_data after the file is read: an empty layer is refused;
      otherwise geometries are repaired, defaults written, and the stores
      whose geometry is still invalid dropped. */
  function LoadOxxos<G(!new)>(t: Table<G>, isValid: G -> bool, repair: G -> G): (r: Option<Table<G>>)
    ensures r.None? <==> |t.rows| == 0
    ensures r.Some? ==> r.value.columns == t.columns + {"name", "direccion"}
    ensures r.Some? ==> |r.value.rows| <= |t.rows|
  {
    if |t.rows| == 0 then None
    else
      var d := WithDefaults(RepairTable(t, isValid, repair));
      Some(Table(d.columns, KeepValid(d.rows, isValid)))
  }

  /** The stores load_oxxos_data keeps are exactly the repaired, defaulted
      stores whose geometry is valid, and each has a name and an address.
      A store whose repair is still invalid (a missing point among them) is
      dropped; no store is invented. */
  lemma LoadOxxosKeepsValid<G(!new)>(t: Table<G>, isValid: G -> bool, repair: G -> G)
    requires |t.rows| > 0
    ensures var r := LoadOxxos(t, isValid, repair).value;
      forall x | x in r.rows ::
        && isValid(x.geometry)
        && Cell(x, "name").Some? && Cell(x, "direccion").Some?
        && x in WithDefaults(RepairTable(t, isValid, repair)).rows
    ensures var r := LoadOxxos(t, isValid, repair).value;
      forall i | 0 <= i < |t.rows| ::
        (WithDefaults(RepairTable(t, isValid, repair)).rows[i] in r.rows
         <==> isValid(Repaired(Geometries(t), isValid, repair)[i]))
  {
    var v := RepairTable(t, isValid, repair);
    var d := WithDefaults(v);
    var r := LoadOxxos(t, isValid, repair).value;
    assert r.rows == KeepValid(d.rows, isValid);
    KeepValidMembers(d.rows, isValid);
    forall x | x in r.rows
      ensures Cell(x, "name").Some? && Cell(x, "direccion").Some?
    {
      var i :| 0 <= i < |d.rows| && d.rows[i] == x;
    }
    forall i | 0 <= i < |t.rows|
      ensures d.rows[i].geometry == Repaired(Geometries(t), isValid, repair)[i]
    {
      assert d.rows[i].geometry == Geometries(v)[i];
    }
  }

  // ---------------------------------------------------------------------
  // load_electoral_data

  /** One borough's synthetic result; `porcentaje` is carried in tenths of a
      percent (52.3 is 523). */
  datatype PartyResult = PartyResult(partidoGanador: string, votosTotales: nat, porcentaje: int)

  /** The synthetic electoral dictionary, in insertion order. */
  function ElectoralData(): seq<(string, PartyResult)>
  {
    [ ("ALVARO OBREGON", PartyResult("MORENA", 450000, 523)),
      ("AZCAPOTZALCO", PartyResult("MORENA", 280000, 487)),
      ("BENITO JUAREZ", PartyResult("PAN", 320000, 412)),
      ("COYOACAN", PartyResult("MORENA", 420000, 458)),
      ("CUAJIMALPA", PartyResult("PAN", 150000, 435)),
      ("CUAUHTEMOC", PartyResult("MORENA", 380000, 492)),
      ("GUSTAVO A MADERO", PartyResult("MORENA", 750000, 518)),
      ("IZTACALCO", PartyResult("MORENA", 270000, 531)),
      ("IZTAPALAPA", PartyResult("MORENA", 1200000, 587)),
      ("MAGDALENA CONTRERAS", PartyResult("MORENA", 180000, 469)),
      ("MIGUEL HIDALGO", PartyResult("PAN", 250000, 421)),
      ("MILPA ALTA", PartyResult("MORENA", 90000, 554)),
      ("TLAHUAC", PartyResult("MORENA", 240000, 542)),
      ("TLALPAN", PartyResult("MORENA", 480000, 473)),
      ("VENUSTIANO CARRANZA", PartyResult("MORENA", 310000, 506)),
      ("XOCHIMILCO", PartyResult("MORENA", 290000, 528)) ]
  }

  /** One row of the electoral table. */
  datatype ElectoralRow = ElectoralRow(alcaldia: string, partidoGanador: string, votosTotales: nat, porcentaje: int)

  /** load_electoral_data: one row per dictionary entry, in order, each
      carrying the entry's key and its three values. */
  method LoadElectoralData() returns (rows: seq<ElectoralRow>)
    ensures |rows| == |ElectoralData()|
    ensures forall i | 0 <= i < |rows| ::
      && rows[i].alcaldia == ElectoralData()[i].0
      && rows[i].partidoGanador == ElectoralData()[i].1.partidoGanador
      && rows[i].votosTotales == ElectoralData()[i].1.votosTotales
      && rows[i].porcentaje == ElectoralData()[i].1.porcentaje
  {
    var data := ElectoralData();
    rows := [];
    for i := 0 to |data|
      invariant |rows| == i
      invariant forall j | 0 <= j < i ::
        rows[j] == ElectoralRow(data[j].0, data[j].1.partidoGanador, data[j].1.votosTotales, data[j].1.porcentaje)
    {
      var (alcaldia, datos) := data[i];
      rows := rows + [ElectoralRow(alcaldia, datos.partidoGanador, datos.votosTotales, datos.porcentaje)];
    }
  }

  /** The dictionary has sixteen boroughs and, being a dictionary, no key
      twice, so the electoral table is keyed uniquely by `alcaldia`. */
  lemma ElectoralKeysDistinct()
    ensures |ElectoralData()| == 16
    ensures forall i, j | 0 <= i < j < |ElectoralData()| :: ElectoralData()[i].0 != ElectoralData()[j].0
  {
  }

  // ---------------------------------------------------------------------
  // assign_oxxos_to_alcaldias

  /** The buffer, in metres of the projected frame, grown around each
      borough before the spatial join. */
  const AlcaldiaBuffer: int := 1000

  /** The sixteen real borough names, used as the name column when the
      layer has neither `nomgeo` nor `alcaldia`. */
  const RealAlcaldias: seq<string> := [
    "AZCAPOTZALCO", "COYOACÁN", "CUAJIMALPA DE MORELOS", "GUSTAVO A. MADERO",
    "IZTACALCO", "IZTAPALAPA", "LA MAGDALENA CONTRERAS", "MILPA ALTA",
    "ÁLVARO OBREGÓN", "TLÁHUAC", "TLALPAN", "XOCHIMILCO",
    "BENITO JUÁREZ", "CUAUHTÉMOC", "MIGUEL HIDALGO", "VENUSTIANO CARRANZA"]

  /** The names the engine gives the buffered boroughs: cleaned `nomgeo`,
      else cleaned `alcaldia`, else the first real names, one per row.
      With more rows than real names the column cannot be filled and
      the engine fails. */
  function EngineNames<G>(t: Table<G>): (names: Option<seq<Option<string>>>)
    ensures names.None? <==> "nomgeo" !in t.columns && "alcaldia" !in t.columns && |t.rows| > |RealAlcaldias|
    ensures names.Some? ==> |names.value| == |t.rows|
    ensures "nomgeo" in t.columns ==> forall i | 0 <= i < |t.rows| ::
      names.value[i] == CleanCell(Cell(t.rows[i], "nomgeo"))
    ensures "nomgeo" !in t.columns && "alcaldia" in t.columns ==> forall i | 0 <= i < |t.rows| ::
      names.value[i] == CleanCell(Cell(t.rows[i], "alcaldia"))
    ensures "nomgeo" !in t.columns && "alcaldia" !in t.columns && names.Some? ==> forall i | 0 <= i < |t.rows| ::
      names.value[i] == Some(RealAlcaldias[i])
  {
    if "nomgeo" in t.columns then
      Some(seq(|t.rows|, i requires 0 <= i < |t.rows| => CleanCell(Cell(t.rows[i], "nomgeo"))))
    else if "alcaldia" in t.columns then
      Some(seq(|t.rows|, i requires 0 <= i < |t.rows| => CleanCell(Cell(t.rows[i], "alcaldia"))))
    else if |t.rows| <= |RealAlcaldias| then
      Some(seq(|t.rows|, i requires 0 <= i < |t.rows| => Some(RealAlcaldias[i])))
    else None
  }

  /** Borough `j` is a spatial-join match for point `p`: its buffer meets
      the point and it has a name to copy. */
  predicate Hit<G>(p: Coord, regions: seq<Row<G>>, names: seq<Option<string>>, inBuffer: (Coord, G, int) -> bool, j: nat)
  {
    j < |regions| && j < |names| && inBuffer(p, regions[j].geometry, AlcaldiaBuffer) && names[j].Some?
  }

  /** Stage 1 for one store: the name of the first borough, in table order,
      that the spatial join matches; nothing for a store with no geometry
      or no match. */
  function AfterJoin<G>(g: Option<Coord>, regions: seq<Row<G>>, names: seq<Option<string>>, inBuffer: (Coord, G, int) -> bool)
    : Option<string>
    requires |names| == |regions|
  {
    match g
    case None => None
    case Some(p) =>
      match First(|regions|, (j: nat) => Hit(p, regions, names, inBuffer, j))
      case None => None
      case Some(k) => names[k]
  }

  /** Stages 1 and 2 for one store: the join's name, else, for a store with
      a geometry, the `alcaldia` label of the borough whose centroid is
      nearest (the first such borough); when the layer has no `alcaldia`
      column that lookup fails and the handler writes the first name. */
  function AfterProximity<G>(g: Option<Coord>, alcaldias: Table<G>, names: seq<Option<string>>,
                             inBuffer: (Coord, G, int) -> bool, centroid: G -> Coord): Option<string>
    requires |alcaldias.rows| > 0 && |names| == |alcaldias.rows|
  {
    var joined := AfterJoin(g, alcaldias.rows, names, inBuffer);
    if joined.Some? || g.None? then joined
    else if "alcaldia" in alcaldias.columns then
      Cell(alcaldias.rows[ArgMin(Distances(g.value, alcaldias.rows, centroid))], "alcaldia")
    else names[0]
  }

  /** Stages 1 to 3 for one store: whatever is still null is forced to the
      first borough's name. */
  function AfterForcing<G>(g: Option<Coord>, alcaldias: Table<G>, names: seq<Option<string>>,
                           inBuffer: (Coord, G, int) -> bool, centroid: G -> Coord): Option<string>
    requires |alcaldias.rows| > 0 && |names| == |alcaldias.rows|
  {
    var v := AfterProximity(g, alcaldias, names, inBuffer, centroid);
    if v.Some? then v else names[0]
  }

  /** The `alcaldia` column the engine builds over a non-empty borough layer. */
  function Assignment<G>(oxxos: Table<Option<Coord>>, alcaldias: Table<G>, names: seq<Option<string>>,
                         inBuffer: (Coord, G, int) -> bool, centroid: G -> Coord): (v: seq<Option<string>>)
    requires |alcaldias.rows| > 0 && |names| == |alcaldias.rows|
    ensures |v| == |oxxos.rows|
  {
    seq(|oxxos.rows|, i requires 0 <= i < |oxxos.rows| =>
      AfterForcing(oxxos.rows[i].geometry, alcaldias, names, inBuffer, centroid))
  }

  /** The stores with the assignment written in: `alcaldia` set from `v`,
      and a null `nomgeo` column added when there was none. */
  function Annotated<G>(t: Table<G>, v: seq<Option<string>>): (r: Table<G>)
    requires |v| == |t.rows|
    ensures r.columns == t.columns + {"alcaldia", "nomgeo"} && |r.rows| == |t.rows|
    ensures forall i | 0 <= i < |t.rows| :: r.rows[i].geometry == t.rows[i].geometry && Cell(r.rows[i], "alcaldia") == v[i]
    ensures forall i, c | 0 <= i < |t.rows| && c != "alcaldia" && c != "nomgeo" :: Cell(r.rows[i], c) == Cell(t.rows[i], c)
    ensures forall i | 0 <= i < |t.rows| ::
      Cell(r.rows[i], "nomgeo") == if "nomgeo" in t.columns then Cell(t.rows[i], "nomgeo") else None
  {
    var a := WithColumn(t, "alcaldia", v);
    if "nomgeo" in t.columns then a
    else WithColumn(a, "nomgeo", seq(|v|, _ => None))
  }

  /** assign_oxxos_to_alcaldias as a value: `None` where the function logs
      an error and returns None. On success every store is kept, in order,
      with its geometry and every cell but `alcaldia` as it was, and every
      store has a borough. */
  function AssignAlcaldias<G>(oxxos: Table<Option<Coord>>, alcaldias: Table<G>,
                              inBuffer: (Coord, G, int) -> bool, centroid: G -> Coord)
    : (r: Option<Table<Option<Coord>>>)
    ensures r.Some? ==> r.value.columns == oxxos.columns + {"alcaldia", "nomgeo"} && |r.value.rows| == |oxxos.rows|
    ensures r.Some? ==> forall i | 0 <= i < |oxxos.rows| ::
      r.value.rows[i].geometry == oxxos.rows[i].geometry && Cell(r.value.rows[i], "alcaldia").Some?
    ensures r.Some? ==> forall i, c | 0 <= i < |oxxos.rows| && c != "alcaldia" && c != "nomgeo" ::
      Cell(r.value.rows[i], c) == Cell(oxxos.rows[i], c)
    ensures r.Some? && "nomgeo" in oxxos.columns ==> forall i | 0 <= i < |oxxos.rows| ::
      Cell(r.value.rows[i], "nomgeo") == Cell(oxxos.rows[i], "nomgeo")
  {
    match EngineNames(alcaldias)
    case None => None
    case Some(names) =>
      if |alcaldias.rows| == 0 then
        if |oxxos.rows| == 0 then Some(Annotated(oxxos, [])) else None
      else
        var v := Assignment(oxxos, alcaldias, names, inBuffer, centroid);
        if forall i | 0 <= i < |v| :: v[i].Some? then Some(Annotated(oxxos, v)) else None
  }

  /** assign_oxxos_to_alcaldias: fills the `alcaldia` column cell by cell,
      by the spatial join, then by proximity for the stores left over, then
      by force, and refuses the result if a null survives. Coordinates are
      taken as already projected. */
  method AssignOxxosToAlcaldias<G>(oxxos: Table<Option<Coord>>, alcaldias: Table<G>,
                                   inBuffer: (Coord, G, int) -> bool, centroid: G -> Coord)
    returns (r: Option<Table<Option<Coord>>>)
    ensures r == AssignAlcaldias(oxxos, alcaldias, inBuffer, centroid)
  {
    var engineNames := EngineNames(alcaldias);
    if engineNames.None? {
      return None;
    }
    var names := engineNames.value;
    var n := |oxxos.rows|;
    var alcaldia := new Option<string>[n](_ => None);
    AssignByJoin(alcaldia, oxxos, alcaldias.rows, names, inBuffer);
    var ok := AssignByProximity(alcaldia, oxxos, alcaldias, names, inBuffer, centroid);
    if !ok {
      return None;
    }
    ok := AssignByForce(alcaldia, oxxos, alcaldias, names, inBuffer, centroid);
    if !ok {
      return None;
    }
    // Final check: no store may be left without a borough.
    NumPresentFull(alcaldia[..]);
    var missing := n - NumPresent(alcaldia[..]);
    if missing > 0 {
      return None;
    }
    r := Some(Annotated(oxxos, alcaldia[..]));
  }

  /** Stage 1: every store the join matched gets the matched name. */
  method AssignByJoin<G>(alcaldia: array<Option<string>>, oxxos: Table<Option<Coord>>, regions: seq<Row<G>>,
                         names: seq<Option<string>>, inBuffer: (Coord, G, int) -> bool)
    requires alcaldia.Length == |oxxos.rows| && |names| == |regions|
    requires forall j | 0 <= j < alcaldia.Length :: alcaldia[j].None?
    modifies alcaldia
    ensures forall j | 0 <= j < alcaldia.Length :: alcaldia[j] == AfterJoin(oxxos.rows[j].geometry, regions, names, inBuffer)
  {
    for i := 0 to alcaldia.Length
      invariant forall j | 0 <= j < i :: alcaldia[j] == AfterJoin(oxxos.rows[j].geometry, regions, names, inBuffer)
      invariant forall j | i <= j < alcaldia.Length :: alcaldia[j].None?
    {
      var joined := AfterJoin(oxxos.rows[i].geometry, regions, names, inBuffer);
      if joined.Some? {
        alcaldia[i] := joined;
      }
    }
  }

  /** Stage 2: every store still unassigned that has a geometry gets the
      label of the nearest centroid. Fails (the lookup raises, and so does
      its handler) when there is no borough to measure against. */
  method AssignByProximity<G>(alcaldia: array<Option<string>>, oxxos: Table<Option<Coord>>, alcaldias: Table<G>,
                              names: seq<Option<string>>, inBuffer: (Coord, G, int) -> bool, centroid: G -> Coord)
    returns (ok: bool)
    requires alcaldia.Length == |oxxos.rows| && |names| == |alcaldias.rows|
    requires forall j | 0 <= j < alcaldia.Length ::
      alcaldia[j] == AfterJoin(oxxos.rows[j].geometry, alcaldias.rows, names, inBuffer)
    modifies alcaldia
    ensures ok <==> |alcaldias.rows| > 0 || forall j | 0 <= j < |oxxos.rows| :: oxxos.rows[j].geometry.None?
    ensures ok && |alcaldias.rows| > 0 ==> forall j | 0 <= j < alcaldia.Length ::
      alcaldia[j] == AfterProximity(oxxos.rows[j].geometry, alcaldias, names, inBuffer, centroid)
    ensures ok && |alcaldias.rows| == 0 ==> forall j | 0 <= j < alcaldia.Length :: alcaldia[j].None?
  {
    var regions := alcaldias.rows;
    var unassigned := alcaldia[..];
    for i := 0 to alcaldia.Length
      invariant forall j | i <= j < alcaldia.Length :: alcaldia[j] == unassigned[j]
      invariant |regions| > 0 ==> forall j | 0 <= j < i ::
        alcaldia[j] == AfterProximity(oxxos.rows[j].geometry, alcaldias, names, inBuffer, centroid)
      invariant |regions| == 0 ==> forall j | 0 <= j < i :: alcaldia[j].None? && oxxos.rows[j].geometry.None?
    {
      if unassigned[i].None? {
        var point := oxxos.rows[i].geometry;
        if point.Some? {
          if |regions| == 0 {
            return false;
          }
          if "alcaldia" in alcaldias.columns {
            var nearest := ArgMin(Distances(point.value, regions, centroid));
            alcaldia[i] := Cell(regions[nearest], "alcaldia");
          } else {
            alcaldia[i] := names[0];
          }
        }
      }
    }
    return true;
  }

  /** Stage 3: if any store is still unassigned, all such stores get the
      first borough's name. Fails when there is no first borough. */
  method AssignByForce<G>(alcaldia: array<Option<string>>, oxxos: Table<Option<Coord>>, alcaldias: Table<G>,
                          names: seq<Option<string>>, inBuffer: (Coord, G, int) -> bool, centroid: G -> Coord)
    returns (ok: bool)
    requires alcaldia.Length == |oxxos.rows| && |names| == |alcaldias.rows|
    requires |alcaldias.rows| > 0 ==> forall j | 0 <= j < alcaldia.Length ::
      alcaldia[j] == AfterProximity(oxxos.rows[j].geometry, alcaldias, names, inBuffer, centroid)
    requires |alcaldias.rows| == 0 ==> forall j | 0 <= j < alcaldia.Length :: alcaldia[j].None?
    modifies alcaldia
    ensures ok <==> |alcaldias.rows| > 0 || |oxxos.rows| == 0
    ensures ok && |alcaldias.rows| > 0 ==> alcaldia[..] == Assignment(oxxos, alcaldias, names, inBuffer, centroid)
    ensures ok && |alcaldias.rows| == 0 ==> alcaldia[..] == []
  {
    NumPresentFull(alcaldia[..]);
    var stillUnassigned := alcaldia.Length - NumPresent(alcaldia[..]);
    if stillUnassigned > 0 {
      if |names| == 0 {
        return false;
      }
      var first := names[0];
      forall j | 0 <= j < alcaldia.Length && alcaldia[j].None? {
        alcaldia[j] := first;
      }
    }
    if |alcaldias.rows| > 0 {
      assert alcaldia[..] == Assignment(oxxos, alcaldias, names, inBuffer, centroid);
    }
    return true;
  }

  /** In the pipeline the two name sources of the engine agree: for a layer
      produced by load_alcaldias_data, the names the join copies are exactly
      the layer's `alcaldia` labels that proximity reads. */
  lemma LoadedLayerNamesAgree<G>(t: Table<G>, isValid: G -> bool, repair: G -> G)
    requires LoadAlcaldias(t, isValid, repair).Some?
    ensures EngineNames(LoadAlcaldias(t, isValid, repair).value)
      == Some(Column(LoadAlcaldias(t, isValid, repair).value, "alcaldia"))
  {
    var a := LoadAlcaldias(t, isValid, repair).value;
    LoadedNamesAreClean(t, isValid, repair);
    if "nomgeo" in a.columns {
      assert NameSource(t.columns) == Some("nomgeo");
    }
    assert EngineNames(a).value == Column(a, "alcaldia");
  }

  /** The engine fails exactly when the layer cannot be named, when there
      are stores but no borough, or when the first borough has no name and
      some store is still unassigned after proximity. In particular a named
      first borough guarantees success. */
  lemma AssignFailsExactly<G>(oxxos: Table<Option<Coord>>, alcaldias: Table<G>,
                              inBuffer: (Coord, G, int) -> bool, centroid: G -> Coord)
    ensures AssignAlcaldias(oxxos, alcaldias, inBuffer, centroid).None? <==>
      || EngineNames(alcaldias).None?
      || (|alcaldias.rows| == 0 && |oxxos.rows| > 0)
      || (&& |alcaldias.rows| > 0
          && EngineNames(alcaldias).value[0].None?
          && exists i | 0 <= i < |oxxos.rows| ::
               AfterProximity(oxxos.rows[i].geometry, alcaldias, EngineNames(alcaldias).value, inBuffer, centroid).None?)
  {
    if EngineNames(alcaldias).Some? && |alcaldias.rows| > 0 {
      var names := EngineNames(alcaldias).value;
      var v := Assignment(oxxos, alcaldias, names, inBuffer, centroid);
      forall i | 0 <= i < |v|
        ensures v[i].None? <==>
          (names[0].None? && AfterProximity(oxxos.rows[i].geometry, alcaldias, names, inBuffer, centroid).None?)
      {
      }
    }
  }

  /** On success, the borough written for store `i` is its value after the
      three stages. */
  lemma AssignedCell<G>(oxxos: Table<Option<Coord>>, alcaldias: Table<G>,
                        inBuffer: (Coord, G, int) -> bool, centroid: G -> Coord,
                        names: seq<Option<string>>, i: nat)
    requires EngineNames(alcaldias) == Some(names)
    requires AssignAlcaldias(oxxos, alcaldias, inBuffer, centroid).Some?
    requires i < |oxxos.rows|
    ensures |alcaldias.rows| > 0 && |names| == |alcaldias.rows|
    ensures Cell(AssignAlcaldias(oxxos, alcaldias, inBuffer, centroid).value.rows[i], "alcaldia")
      == AfterForcing(oxxos.rows[i].geometry, alcaldias, names, inBuffer, centroid)
  {
  }

  /** A store whose point lies in the buffer of a named borough keeps the
      name of the first such borough: later stages never overwrite a join
      result. */
  lemma JoinResultKept<G>(oxxos: Table<Option<Coord>>, alcaldias: Table<G>,
                          inBuffer: (Coord, G, int) -> bool, centroid: G -> Coord,
                          names: seq<Option<string>>, i: nat, p: Coord, k: nat)
    requires EngineNames(alcaldias) == Some(names)
    requires AssignAlcaldias(oxxos, alcaldias, inBuffer, centroid).Some?
    requires i < |oxxos.rows| && oxxos.rows[i].geometry == Some(p)
    requires k < |alcaldias.rows| && inBuffer(p, alcaldias.rows[k].geometry, AlcaldiaBuffer) && names[k].Some?
    requires forall j | 0 <= j < k :: !(inBuffer(p, alcaldias.rows[j].geometry, AlcaldiaBuffer) && names[j].Some?)
    ensures Cell(AssignAlcaldias(oxxos, alcaldias, inBuffer, centroid).value.rows[i], "alcaldia") == names[k]
  {
    AssignedCell(oxxos, alcaldias, inBuffer, centroid, names, i);
    var hit := (j: nat) => Hit(p, alcaldias.rows, names, inBuffer, j);
    assert hit(k);
    var f := First(|alcaldias.rows|, hit);
    assert f.Some? && f.value <= k;
    assert hit(f.value);
    assert f.value >= k;
    assert AfterJoin(Some(p), alcaldias.rows, names, inBuffer) == names[k];
  }

  /** A point that lies inside a named borough and in no earlier named
      borough's buffer is assigned that borough, provided the buffer
      contains the region (what a non-negative buffer guarantees). */
  lemma ContainedPointAssigned<G>(oxxos: Table<Option<Coord>>, alcaldias: Table<G>,
                                  inBuffer: (Coord, G, int) -> bool, centroid: G -> Coord,
                                  inside: (Coord, G) -> bool,
                                  names: seq<Option<string>>, i: nat, p: Coord, k: nat)
    requires forall q, g :: inside(q, g) ==> inBuffer(q, g, AlcaldiaBuffer)
    requires EngineNames(alcaldias) == Some(names)
    requires AssignAlcaldias(oxxos, alcaldias, inBuffer, centroid).Some?
    requires i < |oxxos.rows| && oxxos.rows[i].geometry == Some(p)
    requires k < |alcaldias.rows| && inside(p, alcaldias.rows[k].geometry) && names[k].Some?
    requires forall j | 0 <= j < k :: !inBuffer(p, alcaldias.rows[j].geometry, AlcaldiaBuffer)
    ensures Cell(AssignAlcaldias(oxxos, alcaldias, inBuffer, centroid).value.rows[i], "alcaldia") == names[k]
  {
    JoinResultKept(oxxos, alcaldias, inBuffer, centroid, names, i, p, k);
  }

  /** A store with a point that no named buffer reaches takes the label of
      the borough with the nearest centroid, the first one on a tie (or the
      first borough's name when that label is null). */
  lemma NearestCentroidAssigned<G>(oxxos: Table<Option<Coord>>, alcaldias: Table<G>,
                                   inBuffer: (Coord, G, int) -> bool, centroid: G -> Coord,
                                   names: seq<Option<string>>, i: nat, p: Coord, k: nat)
    requires EngineNames(alcaldias) == Some(names)
    requires AssignAlcaldias(oxxos, alcaldias, inBuffer, centroid).Some?
    requires i < |oxxos.rows| && oxxos.rows[i].geometry == Some(p)
    requires forall j | 0 <= j < |alcaldias.rows| :: !(inBuffer(p, alcaldias.rows[j].geometry, AlcaldiaBuffer) && names[j].Some?)
    requires "alcaldia" in alcaldias.columns
    requires IsFirstMin(Distances(p, alcaldias.rows, centroid), k)
    ensures Cell(AssignAlcaldias(oxxos, alcaldias, inBuffer, centroid).value.rows[i], "alcaldia")
      == if Cell(alcaldias.rows[k], "alcaldia").Some? then Cell(alcaldias.rows[k], "alcaldia") else names[0]
  {
    AssignedCell(oxxos, alcaldias, inBuffer, centroid, names, i);
    var d := Distances(p, alcaldias.rows, centroid);
    FirstMinUnique(d, ArgMin(d), k);
    var hit := (j: nat) => Hit(p, alcaldias.rows, names, inBuffer, j);
    assert forall j | 0 <= j < |alcaldias.rows| :: !hit(j);
    assert First(|alcaldias.rows|, hit).None?;
    assert AfterJoin(Some(p), alcaldias.rows, names, inBuffer).None?;
    assert AfterProximity(Some(p), alcaldias, names, inBuffer, centroid) == Cell(alcaldias.rows[k], "alcaldia");
  }

  /** A store with no geometry, or one outside every named buffer when the
      layer has no `alcaldia` labels to measure against, falls back to the
      first borough's name. */
  lemma FallbackToFirstBorough<G>(oxxos: Table<Option<Coord>>, alcaldias: Table<G>,
                                  inBuffer: (Coord, G, int) -> bool, centroid: G -> Coord,
                                  names: seq<Option<string>>, i: nat)
    requires EngineNames(alcaldias) == Some(names)
    requires AssignAlcaldias(oxxos, alcaldias, inBuffer, centroid).Some?
    requires i < |oxxos.rows|
    requires || oxxos.rows[i].geometry.None?
             || ("alcaldia" !in alcaldias.columns && |alcaldias.rows| == |names| &&
                 AfterJoin(oxxos.rows[i].geometry, alcaldias.rows, names, inBuffer).None?)
    ensures |names| > 0 && Cell(AssignAlcaldias(oxxos, alcaldias, inBuffer, centroid).value.rows[i], "alcaldia") == names[0]
  {
    AssignedCell(oxxos, alcaldias, inBuffer, centroid, names, i);
  }

  /** Every borough a store receives comes from the borough layer: one of
      the names the engine gave it, or one of its `alcaldia` labels. */
  lemma AssignedNamesFromLayer<G>(oxxos: Table<Option<Coord>>, alcaldias: Table<G>,
                                  inBuffer: (Coord, G, int) -> bool, centroid: G -> Coord,
                                  names: seq<Option<string>>)
    requires EngineNames(alcaldias) == Some(names)
    requires AssignAlcaldias(oxxos, alcaldias, inBuffer, centroid).Some?
    ensures forall i | 0 <= i < |oxxos.rows| ::
      var x := Cell(AssignAlcaldias(oxxos, alcaldias, inBuffer, centroid).value.rows[i], "alcaldia");
      x in names || x in Column(alcaldias, "alcaldia")
  {
    var r := AssignAlcaldias(oxxos, alcaldias, inBuffer, centroid).value;
    forall i | 0 <= i < |oxxos.rows|
      ensures Cell(r.rows[i], "alcaldia") in names || Cell(r.rows[i], "alcaldia") in Column(alcaldias, "alcaldia")
    {
      var g := oxxos.rows[i].geometry;
      AssignedCell(oxxos, alcaldias, inBuffer, centroid, names, i);
      var joined := AfterJoin(g, alcaldias.rows, names, inBuffer);
      if joined.Some? {
        var k := First(|alcaldias.rows|, (j: nat) => Hit(g.value, alcaldias.rows, names, inBuffer, j)).value;
        assert joined == names[k];
      } else if g.Some? && "alcaldia" in alcaldias.columns {
        var k := ArgMin(Distances(g.value, alcaldias.rows, centroid));
        assert Cell(alcaldias.rows[k], "alcaldia") == Column(alcaldias, "alcaldia")[k];
      }
    }
  }

  // ---------------------------------------------------------------------
  // calculate_statistics

  /** One row of the per-borough statistics. */
  datatype OxxoStats = OxxoStats(alcaldia: string, numOxxos: nat, numDirecciones: Option<nat>)

  /** Among the rows of group `k`, those with an address: the group's
      `notna().sum()` over `direccion`. */
  function AddressCount(k: string, alc: seq<Option<string>>, dir: seq<Option<string>>): nat
    requires |alc| == |dir|
  {
    if |alc| == 0 then 0
    else
      AddressCount(k, alc[..|alc| - 1], dir[..|dir| - 1])
        + (if alc[|alc| - 1] == Some(k) && dir[|dir| - 1].Some? then 1 else 0)
  }

  /** calculate_statistics: one row per borough that occurs in the
      `alcaldia` column (nulls dropped), with its number of stores and, when
      there is a `direccion` column, its number of stores with an address.
      `None` when there is no `alcaldia` column to group by. */
  function CalculateStatistics<G>(t: Table<G>): (r: Option<seq<OxxoStats>>)
    ensures r.None? <==> "alcaldia" !in t.columns
    ensures r.Some? ==> forall j | 0 <= j < |r.value| ::
      r.value[j].numDirecciones.Some? <==> "direccion" in t.columns
  {
    if "alcaldia" !in t.columns then None
    else
      var labels := Present(Column(t, "alcaldia"));
      var keys := Distinct(labels);
      Some(seq(|keys|, j requires 0 <= j < |keys| =>
        OxxoStats(keys[j], Count(keys[j], labels),
          if "direccion" in t.columns
          then Some(AddressCount(keys[j], Column(t, "alcaldia"), Column(t, "direccion")))
          else None)))
  }

  /** The `num_oxxos` column of a statistics table. */
  function NumOxxos(stats: seq<OxxoStats>): seq<int>
  {
    seq(|stats|, j requires 0 <= j < |stats| => stats[j].numOxxos)
  }

  /** The groups are the boroughs that occur, each once: a borough is listed
      exactly when some store has it, and its count is the number of stores
      that have it, so no listed borough has zero stores. */
  lemma StatisticsGroups<G>(t: Table<G>)
    requires "alcaldia" in t.columns
    ensures var r := CalculateStatistics(t).value;
      && (forall i, j | 0 <= i < j < |r| :: r[i].alcaldia != r[j].alcaldia)
      && (forall k :: (exists j | 0 <= j < |r| :: r[j].alcaldia == k) <==> Some(k) in Column(t, "alcaldia"))
      && (forall j | 0 <= j < |r| :: r[j].numOxxos == Count(Some(r[j].alcaldia), Column(t, "alcaldia")) > 0)
  {
    var r := CalculateStatistics(t).value;
    var labels := Present(Column(t, "alcaldia"));
    var keys := Distinct(labels);
    forall k
      ensures (exists j | 0 <= j < |r| :: r[j].alcaldia == k) <==> Some(k) in Column(t, "alcaldia")
    {
      if k in keys {
        var j :| 0 <= j < |keys| && keys[j] == k;
        assert r[j].alcaldia == k;
      }
    }
    forall j | 0 <= j < |r|
      ensures r[j].numOxxos == Count(Some(r[j].alcaldia), Column(t, "alcaldia")) > 0
    {
      CountPresent(keys[j], Column(t, "alcaldia"));
      CountPositive(keys[j], labels);
    }
  }

  /** The counts add up to the number of stores with a borough: every such
      store is counted once. */
  lemma StatisticsTotal<G>(t: Table<G>)
    requires "alcaldia" in t.columns
    ensures Sum(NumOxxos(CalculateStatistics(t).value)) == NumPresent(Column(t, "alcaldia"))
  {
    var labels := Present(Column(t, "alcaldia"));
    assert NumOxxos(CalculateStatistics(t).value) == CountsOf(Distinct(labels), labels);
    DistinctCountsSum(labels);
  }

  /** A group's address count never exceeds its size, and equals it when no
      address is null. */
  lemma {:induction false} AddressCountBound(k: string, alc: seq<Option<string>>, dir: seq<Option<string>>)
    requires |alc| == |dir|
    ensures AddressCount(k, alc, dir) <= Count(Some(k), alc)
    ensures (forall i | 0 <= i < |dir| :: dir[i].Some?) ==> AddressCount(k, alc, dir) == Count(Some(k), alc)
  {
    if |alc| > 0 {
      AddressCountBound(k, alc[..|alc| - 1], dir[..|dir| - 1]);
    }
  }

  /** `num_direcciones` is at most `num_oxxos` for every borough, and equal
      to it when every store has an address. */
  lemma StatisticsAddresses<G>(t: Table<G>)
    requires "alcaldia" in t.columns && "direccion" in t.columns
    ensures forall s | s in CalculateStatistics(t).value ::
      s.numDirecciones.Some? && s.numDirecciones.value <= s.numOxxos
    ensures (forall i | 0 <= i < |t.rows| :: Cell(t.rows[i], "direccion").Some?) ==>
      forall s | s in CalculateStatistics(t).value :: s.numDirecciones == Some(s.numOxxos)
  {
    var r := CalculateStatistics(t).value;
    var alc := Column(t, "alcaldia");
    var dir := Column(t, "direccion");
    forall s | s in r
      ensures s.numDirecciones.Some? && s.numDirecciones.value <= s.numOxxos
      ensures (forall i | 0 <= i < |t.rows| :: Cell(t.rows[i], "direccion").Some?) ==> s.numDirecciones == Some(s.numOxxos)
    {
      var j :| 0 <= j < |r| && r[j] == s;
      StatisticsEntry(t, j);
      AddressCountBound(s.alcaldia, alc, dir);
    }
  }

  /** One row of the statistics: its counts in terms of the two columns. */
  lemma StatisticsEntry<G>(t: Table<G>, j: nat)
    requires "alcaldia" in t.columns && "direccion" in t.columns
    requires j < |CalculateStatistics(t).value|
    ensures var s := CalculateStatistics(t).value[j];
      && s.numDirecciones == Some(AddressCount(s.alcaldia, Column(t, "alcaldia"), Column(t, "direccion")))
      && s.numOxxos == Count(Some(s.alcaldia), Column(t, "alcaldia"))
  {
    CountPresent(CalculateStatistics(t).value[j].alcaldia, Column(t, "alcaldia"));
  }

  /** After a successful assignment every store is counted: the counts add
      up to the number of stores handed to the engine. */
  lemma AssignedStoresAllCounted<G>(oxxos: Table<Option<Coord>>, alcaldias: Table<G>,
                                    inBuffer: (Coord, G, int) -> bool, centroid: G -> Coord)
    requires AssignAlcaldias(oxxos, alcaldias, inBuffer, centroid).Some?
    ensures CalculateStatistics(AssignAlcaldias(oxxos, alcaldias, inBuffer, centroid).value).Some?
    ensures Sum(NumOxxos(CalculateStatistics(AssignAlcaldias(oxxos, alcaldias, inBuffer, centroid).value).value))
      == |oxxos.rows|
  {
    var a := AssignAlcaldias(oxxos, alcaldias, inBuffer, centroid).value;
    StatisticsTotal(a);
    NumPresentFull(Column(a, "alcaldia"));
  }

  /** Through the whole pipeline (load the stores, assign them, count them)
      every borough's address count equals its store count, because loading
      gives every store an address and assignment keeps it. */
  lemma PipelineAddressesComplete<G>(raw: Table<Option<Coord>>, isValid: Option<Coord> -> bool,
                                     repair: Option<Coord> -> Option<Coord>, alcaldias: Table<G>,
                                     inBuffer: (Coord, G, int) -> bool, centroid: G -> Coord)
    requires LoadOxxos(raw, isValid, repair).Some?
    requires AssignAlcaldias(LoadOxxos(raw, isValid, repair).value, alcaldias, inBuffer, centroid).Some?
    ensures forall s | s in CalculateStatistics(AssignAlcaldias(LoadOxxos(raw, isValid, repair).value, alcaldias, inBuffer, centroid).value).value ::
      s.numDirecciones == Some(s.numOxxos)
  {
    var o := LoadOxxos(raw, isValid, repair).value;
    var a := AssignAlcaldias(o, alcaldias, inBuffer, centroid).value;
    LoadOxxosKeepsValid(raw, isValid, repair);
    forall i | 0 <= i < |a.rows|
      ensures Cell(a.rows[i], "direccion").Some?
    {
      assert o.rows[i] in o.rows;
    }
    StatisticsAddresses(a);
  }

  // ---------------------------------------------------------------------
  // combine_all_data

  /** One row of the combined table: the borough's own record, its key, the
      electoral values, the store statistics and the density column. */
  datatype RegionData<G> = RegionData(
    region: Row<G>, alcaldia: Option<string>,
    partidoGanador: string, votosTotales: nat, porcentaje: int,
    numOxxos: nat, numDirecciones: Option<nat>, densidadOxxos: nat)

  /** The column combine_all_data joins on: `alcaldia`, or `nomgeo` copied
      into it when only that exists. */
  function MergeKey(columns: set<string>): (c: Option<string>)
    ensures "alcaldia" in columns ==> c == Some("alcaldia")
    ensures "alcaldia" !in columns && "nomgeo" in columns ==> c == Some("nomgeo")
    ensures c.None? <==> "alcaldia" !in columns && "nomgeo" !in columns
  {
    var cands := ["alcaldia", "nomgeo"];
    assert cands[0] == "alcaldia" && cands[1] == "nomgeo";
    FirstPresent(columns, cands)
  }

  /** One joined row with the missing values filled: no party reads
      "Sin datos", missing votes, percentage and store count read 0, and the
      density is the store count. */
  function Filled<G>(x: ((Row<G>, Option<ElectoralRow>), Option<OxxoStats>), key: string): RegionData<G>
  {
    var row := x.0.0;
    var e := x.0.1;
    var s := x.1;
    var numOxxos := if s.Some? then s.value.numOxxos else 0;
    RegionData(row, Cell(row, key),
      if e.Some? then e.value.partidoGanador else "Sin datos",
      if e.Some? then e.value.votosTotales else 0,
      if e.Some? then e.value.porcentaje else 0,
      numOxxos,
      if s.Some? then s.value.numDirecciones else None,
      numOxxos)
  }

  /** combine_all_data: the boroughs left-joined with the electoral table
      and then with the statistics on the borough name, gaps filled. `None`
      when there is no name column to join on. No borough is lost. */
  function CombineAllData<G(!new)>(alcaldias: Table<G>, elecciones: seq<ElectoralRow>, stats: seq<OxxoStats>)
    : (r: Option<seq<RegionData<G>>>)
    ensures r.None? <==> MergeKey(alcaldias.columns).None?
    ensures r.Some? ==> forall d | d in r.value :: d.densidadOxxos == d.numOxxos
  {
    match MergeKey(alcaldias.columns)
    case None => None
    case Some(c) =>
      var withVotes := LeftJoin(alcaldias.rows, elecciones, (row: Row<G>) => Cell(row, c), (e: ElectoralRow) => e.alcaldia);
      var withStats := LeftJoin(withVotes, stats, (x: (Row<G>, Option<ElectoralRow>)) => Cell(x.0, c), (s: OxxoStats) => s.alcaldia);
      Some(seq(|withStats|, i requires 0 <= i < |withStats| => Filled(withStats[i], c)))
  }

  /** `d` is what the merge makes of the borough record `row` whose join key
      is `key`: the record and key themselves, the values of the electoral
      row and of the statistics row that carry the key, and the defaults
      when none does. */
  ghost predicate MergedFrom<G>(d: RegionData<G>, row: Row<G>, key: Option<string>,
                          elecciones: seq<ElectoralRow>, stats: seq<OxxoStats>)
  {
    && d.region == row
    && d.alcaldia == key
    && (forall e | e in elecciones && key == Some(e.alcaldia) ::
          d.partidoGanador == e.partidoGanador && d.votosTotales == e.votosTotales && d.porcentaje == e.porcentaje)
    && ((forall e | e in elecciones :: key != Some(e.alcaldia)) ==>
          d.partidoGanador == "Sin datos" && d.votosTotales == 0 && d.porcentaje == 0)
    && (forall s | s in stats && key == Some(s.alcaldia) ::
          d.numOxxos == s.numOxxos && d.numDirecciones == s.numDirecciones)
    && ((forall s | s in stats :: key != Some(s.alcaldia)) ==>
          d.numOxxos == 0 && d.numDirecciones.None?)
  }

  /** With right tables keyed uniquely (the electoral dictionary's keys and
      the statistics' groups are), the merge is one row per borough, in
      order, each one merged from its borough's record. */
  lemma CombineOneRowPerBorough<G(!new)>(alcaldias: Table<G>, elecciones: seq<ElectoralRow>, stats: seq<OxxoStats>)
    requires MergeKey(alcaldias.columns).Some?
    requires forall i, j | 0 <= i < j < |elecciones| :: elecciones[i].alcaldia != elecciones[j].alcaldia
    requires forall i, j | 0 <= i < j < |stats| :: stats[i].alcaldia != stats[j].alcaldia
    ensures var r := CombineAllData(alcaldias, elecciones, stats).value;
      && |r| == |alcaldias.rows|
      && forall i | 0 <= i < |r| ::
        MergedFrom(r[i], alcaldias.rows[i], Cell(alcaldias.rows[i], MergeKey(alcaldias.columns).value), elecciones, stats)
  {
    var c := MergeKey(alcaldias.columns).value;
    var lkey := (row: Row<G>) => Cell(row, c);
    var ekey := (e: ElectoralRow) => e.alcaldia;
    var pkey := (x: (Row<G>, Option<ElectoralRow>)) => Cell(x.0, c);
    var skey := (s: OxxoStats) => s.alcaldia;
    var withVotes := LeftJoin(alcaldias.rows, elecciones, lkey, ekey);
    var withStats := LeftJoin(withVotes, stats, pkey, skey);
    LeftJoinLookup(alcaldias.rows, elecciones, lkey, ekey);
    LeftJoinLookup(withVotes, stats, pkey, skey);
    forall i | 0 <= i < |alcaldias.rows|
      ensures MergedFrom(Filled(withStats[i], c), alcaldias.rows[i], lkey(alcaldias.rows[i]), elecciones, stats)
    {
      assert pkey(withVotes[i]) == lkey(alcaldias.rows[i]);
      FilledMerged(withStats[i], c, elecciones, stats);
    }
  }

  /** A joined row whose partners are the rows carrying its key (or nothing
      when none does) fills into the merged row of its borough. */
  lemma FilledMerged<G>(x: ((Row<G>, Option<ElectoralRow>), Option<OxxoStats>), key: string,
                        elecciones: seq<ElectoralRow>, stats: seq<OxxoStats>)
    requires forall e | e in elecciones && Cell(x.0.0, key) == Some(e.alcaldia) :: x.0.1 == Some(e)
    requires (forall e | e in elecciones :: Cell(x.0.0, key) != Some(e.alcaldia)) ==> x.0.1.None?
    requires forall s | s in stats && Cell(x.0.0, key) == Some(s.alcaldia) :: x.1 == Some(s)
    requires (forall s | s in stats :: Cell(x.0.0, key) != Some(s.alcaldia)) ==> x.1.None?
    ensures MergedFrom(Filled(x, key), x.0.0, Cell(x.0.0, key), elecciones, stats)
  {
  }

  /** Whatever the keys, the merge keeps every borough: each one heads at
      least one combined row, and every combined row belongs to one. */
  lemma CombineKeepsBoroughs<G(!new)>(alcaldias: Table<G>, elecciones: seq<ElectoralRow>, stats: seq<OxxoStats>)
    requires MergeKey(alcaldias.columns).Some?
    ensures |CombineAllData(alcaldias, elecciones, stats).value| >= |alcaldias.rows|
    ensures forall row :: row in alcaldias.rows <==>
      exists d | d in CombineAllData(alcaldias, elecciones, stats).value :: d.region == row
  {
    var c := MergeKey(alcaldias.columns).value;
    var lkey := (row: Row<G>) => Cell(row, c);
    var ekey := (e: ElectoralRow) => e.alcaldia;
    var pkey := (x: (Row<G>, Option<ElectoralRow>)) => Cell(x.0, c);
    var skey := (s: OxxoStats) => s.alcaldia;
    var withVotes := LeftJoin(alcaldias.rows, elecciones, lkey, ekey);
    var withStats := LeftJoin(withVotes, stats, pkey, skey);
    var r := CombineAllData(alcaldias, elecciones, stats).value;
    LeftJoinKeepsLeft(alcaldias.rows, elecciones, lkey, ekey);
    LeftJoinKeepsLeft(withVotes, stats, pkey, skey);
    forall row
      ensures row in alcaldias.rows <==> exists d | d in r :: d.region == row
    {
      if row in alcaldias.rows {
        var o :| o in withVotes && o.0 == row;
        var o2 :| o2 in withStats && o2.0 == o;
        var k :| 0 <= k < |withStats| && withStats[k] == o2;
        assert r[k].region == row;
      }
      if exists d | d in r :: d.region == row {
        var d :| d in r && d.region == row;
        var k :| 0 <= k < |r| && r[k] == d;
        assert withStats[k] in withStats;
        assert withStats[k].0 in withVotes;
      }
    }
  }

  // ---------------------------------------------------------------------
  // A worked example

  /** The layout of the example: three square boroughs, 10 km a side and
      10 km apart on one line, named TLALPAN, COYOACAN and IZTAPALAPA; six
      stores: two inside the first borough, one 100 m outside the second,
      one inside the third, one with no geometry, and one 50 km beyond the
      third. */
  predicate ExampleBoroughs(boroughs: Table<Rect>)
  {
    && boroughs.columns == {"alcaldia"}
    && |boroughs.rows| == 3
    && boroughs.rows[0] == Row(Rect(Coord(0, 0), Coord(10000, 10000)), map["alcaldia" := Some("TLALPAN")])
    && boroughs.rows[1] == Row(Rect(Coord(20000, 0), Coord(30000, 10000)), map["alcaldia" := Some("COYOACAN")])
    && boroughs.rows[2] == Row(Rect(Coord(40000, 0), Coord(50000, 10000)), map["alcaldia" := Some("IZTAPALAPA")])
  }

  predicate IsExample(stores: Table<Option<Coord>>, boroughs: Table<Rect>)
  {
    && ExampleBoroughs(boroughs)
    && |stores.rows| == 6
    && stores.rows[0].geometry == Some(Coord(5000, 5000))
    && stores.rows[1].geometry == Some(Coord(1000, 1000))
    && stores.rows[2].geometry == Some(Coord(30100, 5000))
    && stores.rows[3].geometry == Some(Coord(45000, 5000))
    && stores.rows[4].geometry == None
    && stores.rows[5].geometry == Some(Coord(100000, 5000))
  }

  /** The borough names of the example as the engine sees them. */
  function ExampleNames(): seq<Option<string>>
  {
    [Some("TLALPAN"), Some("COYOACAN"), Some("IZTAPALAPA")]
  }

  lemma TlalpanIsClean()
    ensures Clean("TLALPAN") == "TLALPAN"
  {
    CleanFixes("TLALPAN");
  }

  lemma CoyoacanIsClean()
    ensures Clean("COYOACAN") == "COYOACAN"
  {
    CleanFixes("COYOACAN");
  }

  lemma IztapalapaIsClean()
    ensures Clean("IZTAPALAPA") == "IZTAPALAPA"
  {
    CleanFixes("IZTAPALAPA");
  }

  lemma ExampleEngineNames(stores: Table<Option<Coord>>, boroughs: Table<Rect>)
    requires IsExample(stores, boroughs)
    ensures EngineNames(boroughs) == Some(ExampleNames())
  {
    var names := ExampleNames();
    TlalpanIsClean();
    CoyoacanIsClean();
    IztapalapaIsClean();
    assert "nomgeo" !in boroughs.columns && "alcaldia" in boroughs.columns;
    var en := EngineNames(boroughs).value;
    assert en[0] == CleanCell(names[0]) && en[1] == CleanCell(names[1]) && en[2] == CleanCell(names[2]);
    assert en == names;
  }

  /** In the example the layer is named and its first name is not null, so
      the engine succeeds. */
  lemma ExampleSucceeds(stores: Table<Option<Coord>>, boroughs: Table<Rect>)
    requires IsExample(stores, boroughs)
    ensures AssignAlcaldias(stores, boroughs, InRectBuffer, Center).Some?
  {
    ExampleEngineNames(stores, boroughs);
    AssignFailsExactly(stores, boroughs, InRectBuffer, Center);
  }

  /** Where the example's stores lie with respect to the boroughs' 1 km
      buffers, and how far the distant store is from each centroid. */
  lemma ExampleGeometry(boroughs: Table<Rect>)
    requires ExampleBoroughs(boroughs)
    ensures InRectBuffer(Coord(5000, 5000), boroughs.rows[0].geometry, AlcaldiaBuffer)
    ensures InRectBuffer(Coord(1000, 1000), boroughs.rows[0].geometry, AlcaldiaBuffer)
    ensures forall j | 0 <= j < 1 :: !InRectBuffer(Coord(30100, 5000), boroughs.rows[j].geometry, AlcaldiaBuffer)
    ensures InRectBuffer(Coord(30100, 5000), boroughs.rows[1].geometry, AlcaldiaBuffer)
    ensures forall j | 0 <= j < 2 :: !InRectBuffer(Coord(45000, 5000), boroughs.rows[j].geometry, AlcaldiaBuffer)
    ensures InRectBuffer(Coord(45000, 5000), boroughs.rows[2].geometry, AlcaldiaBuffer)
    ensures forall j | 0 <= j < |boroughs.rows| :: !InRectBuffer(Coord(100000, 5000), boroughs.rows[j].geometry, AlcaldiaBuffer)
    ensures IsFirstMin(Distances(Coord(100000, 5000), boroughs.rows, Center), 2)
  {
    var r0, r1, r2 := boroughs.rows[0].geometry, boroughs.rows[1].geometry, boroughs.rows[2].geometry;
    InRectIsInBuffer(Coord(5000, 5000), r0, AlcaldiaBuffer, AlcaldiaBuffer);
    InRectIsInBuffer(Coord(1000, 1000), r0, AlcaldiaBuffer, AlcaldiaBuffer);
    InRectIsInBuffer(Coord(45000, 5000), r2, AlcaldiaBuffer, AlcaldiaBuffer);
    assert Gap(30100, 20000, 30000) == 100 && Gap(5000, 0, 10000) == 0;
    assert Gap(30100, 0, 10000) == 20100;
    assert Gap(45000, 0, 10000) == 35000 && Gap(45000, 20000, 30000) == 15000;
    assert Gap(100000, 0, 10000) == 90000 && Gap(100000, 20000, 30000) == 70000 && Gap(100000, 40000, 50000) == 50000;
    assert Center(r0) == Coord(5000, 5000) && Center(r1) == Coord(25000, 5000) && Center(r2) == Coord(45000, 5000);
    var d := Distances(Coord(100000, 5000), boroughs.rows, Center);
    assert d[0] == 9025000000 && d[1] == 5625000000 && d[2] == 3025000000;
  }

  /** The first two stores lie inside the first borough and join it. */
  lemma ExampleInside(stores: Table<Option<Coord>>, boroughs: Table<Rect>)
    requires IsExample(stores, boroughs)
    ensures AssignAlcaldias(stores, boroughs, InRectBuffer, Center).Some?
    ensures Cell(AssignAlcaldias(stores, boroughs, InRectBuffer, Center).value.rows[0], "alcaldia") == Some("TLALPAN")
    ensures Cell(AssignAlcaldias(stores, boroughs, InRectBuffer, Center).value.rows[1], "alcaldia") == Some("TLALPAN")
  {
    ExampleEngineNames(stores, boroughs);
    ExampleSucceeds(stores, boroughs);
    ExampleGeometry(boroughs);
    JoinResultKept(stores, boroughs, InRectBuffer, Center, ExampleNames(), 0, Coord(5000, 5000), 0);
    JoinResultKept(stores, boroughs, InRectBuffer, Center, ExampleNames(), 1, Coord(1000, 1000), 0);
  }

  /** The store 100 m outside the second borough joins it through the
      buffer. */
  lemma ExampleNearBorder(stores: Table<Option<Coord>>, boroughs: Table<Rect>)
    requires IsExample(stores, boroughs)
    ensures AssignAlcaldias(stores, boroughs, InRectBuffer, Center).Some?
    ensures Cell(AssignAlcaldias(stores, boroughs, InRectBuffer, Center).value.rows[2], "alcaldia") == Some("COYOACAN")
  {
    ExampleEngineNames(stores, boroughs);
    ExampleSucceeds(stores, boroughs);
    ExampleGeometry(boroughs);
    var names := ExampleNames();
    assert names[1] == Some("COYOACAN") && names[0].Some?;
    JoinResultKept(stores, boroughs, InRectBuffer, Center, names, 2, Coord(30100, 5000), 1);
  }

  /** The store inside the third borough, beyond the buffers of the first
      two, joins the third. */
  lemma ExampleThird(stores: Table<Option<Coord>>, boroughs: Table<Rect>)
    requires IsExample(stores, boroughs)
    ensures AssignAlcaldias(stores, boroughs, InRectBuffer, Center).Some?
    ensures Cell(AssignAlcaldias(stores, boroughs, InRectBuffer, Center).value.rows[3], "alcaldia") == Some("IZTAPALAPA")
  {
    ExampleEngineNames(stores, boroughs);
    ExampleSucceeds(stores, boroughs);
    ExampleGeometry(boroughs);
    JoinResultKept(stores, boroughs, InRectBuffer, Center, ExampleNames(), 3, Coord(45000, 5000), 2);
  }

  /** The store with no geometry is forced to the first borough. */
  lemma ExampleMissing(stores: Table<Option<Coord>>, boroughs: Table<Rect>)
    requires IsExample(stores, boroughs)
    ensures AssignAlcaldias(stores, boroughs, InRectBuffer, Center).Some?
    ensures Cell(AssignAlcaldias(stores, boroughs, InRectBuffer, Center).value.rows[4], "alcaldia") == Some("TLALPAN")
  {
    ExampleEngineNames(stores, boroughs);
    ExampleSucceeds(stores, boroughs);
    FallbackToFirstBorough(stores, boroughs, InRectBuffer, Center, ExampleNames(), 4);
  }

  /** The distant store is in no buffer and goes to the nearest centroid,
      the third's. */
  lemma ExampleFar(stores: Table<Option<Coord>>, boroughs: Table<Rect>)
    requires IsExample(stores, boroughs)
    ensures AssignAlcaldias(stores, boroughs, InRectBuffer, Center).Some?
    ensures Cell(AssignAlcaldias(stores, boroughs, InRectBuffer, Center).value.rows[5], "alcaldia") == Some("IZTAPALAPA")
  {
    ExampleEngineNames(stores, boroughs);
    ExampleSucceeds(stores, boroughs);
    ExampleGeometry(boroughs);
    NearestCentroidAssigned(stores, boroughs, InRectBuffer, Center, ExampleNames(), 5, Coord(100000, 5000), 2);
  }

  /** The example runs through every stage: the two inner stores join the
      first borough, the store just outside the second joins it through the
      1 km buffer, the store inside the third joins it, the store with no
      geometry is forced to the first borough, and the distant store goes
      to the nearest centroid, the third's. */
  lemma ExampleAssignment(stores: Table<Option<Coord>>, boroughs: Table<Rect>)
    requires IsExample(stores, boroughs)
    ensures AssignAlcaldias(stores, boroughs, InRectBuffer, Center).Some?
    ensures Column(AssignAlcaldias(stores, boroughs, InRectBuffer, Center).value, "alcaldia")
      == [Some("TLALPAN"), Some("TLALPAN"), Some("COYOACAN"), Some("IZTAPALAPA"), Some("TLALPAN"), Some("IZTAPALAPA")]
  {
    ExampleInside(stores, boroughs);
    ExampleNearBorder(stores, boroughs);
    ExampleThird(stores, boroughs);
    ExampleMissing(stores, boroughs);
    ExampleFar(stores, boroughs);
    var out := AssignAlcaldias(stores, boroughs, InRectBuffer, Center).value;
    var t, c, i := Some("TLALPAN"), Some("COYOACAN"), Some("IZTAPALAPA");
    ColumnOfSix(out, "alcaldia", t, t, c, i, t, i);
  }
  /** The non-null labels of the example's borough column. */
  lemma ExampleLabels(col: seq<Option<string>>)
    requires col == [Some("TLALPAN"), Some("TLALPAN"), Some("COYOACAN"), Some("IZTAPALAPA"), Some("TLALPAN"), Some("IZTAPALAPA")]
    ensures Present(col) == ["TLALPAN", "TLALPAN", "COYOACAN", "IZTAPALAPA", "TLALPAN", "IZTAPALAPA"]
  {
    var t, c, i := Some("TLALPAN"), Some("COYOACAN"), Some("IZTAPALAPA");
    assert Present([t]) == ["TLALPAN"] by { assert [t][..0] == []; }
    assert [t, t][..1] == [t];
    assert Present([t, t]) == ["TLALPAN", "TLALPAN"];
    assert [t, t, c][..2] == [t, t];
    assert Present([t, t, c]) == ["TLALPAN", "TLALPAN", "COYOACAN"];
    assert [t, t, c, i][..3] == [t, t, c];
    assert Present([t, t, c, i]) == ["TLALPAN", "TLALPAN", "COYOACAN", "IZTAPALAPA"];
    assert [t, t, c, i, t][..4] == [t, t, c, i];
    assert Present([t, t, c, i, t]) == ["TLALPAN", "TLALPAN", "COYOACAN", "IZTAPALAPA", "TLALPAN"];
    assert col[..5] == [t, t, c, i, t];
  }

  /** The groups of the example's labels, in order of first appearance. */
  lemma ExampleGroups(labels: seq<string>)
    requires labels == ["TLALPAN", "TLALPAN", "COYOACAN", "IZTAPALAPA", "TLALPAN", "IZTAPALAPA"]
    ensures Distinct(labels) == ["TLALPAN", "COYOACAN", "IZTAPALAPA"]
  {
    var t: string, c: string, i: string := "TLALPAN", "COYOACAN", "IZTAPALAPA";
    assert t != c && t != i && c != i by { assert t[0] != c[0] && t[1] != i[1] && c[0] != i[0]; }
    assert [t][..0] == [] && Distinct([t]) == [t];
    assert [t, t][..1] == [t] && t in [t];
    assert Distinct([t, t]) == [t];
    assert [t, t, c][..2] == [t, t] && c !in [t];
    assert Distinct([t, t, c]) == [t, c];
    assert [t, t, c, i][..3] == [t, t, c] && i !in [t, c];
    assert Distinct([t, t, c, i]) == [t, c, i];
    assert [t, t, c, i, t][..4] == [t, t, c, i] && t in [t, c, i];
    assert Distinct([t, t, c, i, t]) == [t, c, i];
    assert labels[..5] == [t, t, c, i, t] && i in [t, c, i];
  }

  /** The group sizes of the example's labels: TLALPAN three times,
      COYOACAN once, IZTAPALAPA twice. */
  lemma ExampleGroupSizes(labels: seq<string>)
    requires labels == ["TLALPAN", "TLALPAN", "COYOACAN", "IZTAPALAPA", "TLALPAN", "IZTAPALAPA"]
    ensures Count("TLALPAN", labels) == 3 && Count("COYOACAN", labels) == 1 && Count("IZTAPALAPA", labels) == 2
  {
    var t: string, c: string, i: string := "TLALPAN", "COYOACAN", "IZTAPALAPA";
    assert t != c && t != i && c != i by { assert t[0] != c[0] && t[1] != i[1] && c[0] != i[0]; }
    assert [t][..0] == [];
    assert Count(t, [t]) == 1 && Count(c, [t]) == 0 && Count(i, [t]) == 0;
    assert [t, t][..1] == [t];
    assert Count(t, [t, t]) == 2 && Count(c, [t, t]) == 0 && Count(i, [t, t]) == 0;
    assert [t, t, c][..2] == [t, t];
    assert Count(t, [t, t, c]) == 2 && Count(c, [t, t, c]) == 1 && Count(i, [t, t, c]) == 0;
    assert [t, t, c, i][..3] == [t, t, c];
    assert Count(t, [t, t, c, i]) == 2 && Count(c, [t, t, c, i]) == 1 && Count(i, [t, t, c, i]) == 1;
    assert [t, t, c, i, t][..4] == [t, t, c, i];
    assert Count(t, [t, t, c, i, t]) == 3 && Count(c, [t, t, c, i, t]) == 1 && Count(i, [t, t, c, i, t]) == 1;
    assert labels[..5] == [t, t, c, i, t];
  }

  /** The statistics stage on the example's assignment: one row per borough
      in order of first appearance, with three, one and two stores. */
  lemma ExampleStatistics(stores: Table<Option<Coord>>, boroughs: Table<Rect>)
    requires IsExample(stores, boroughs)
    ensures AssignAlcaldias(stores, boroughs, InRectBuffer, Center).Some?
    ensures var r := CalculateStatistics(AssignAlcaldias(stores, boroughs, InRectBuffer, Center).value);
      && r.Some? && |r.value| == 3
      && r.value[0].alcaldia == "TLALPAN" && r.value[0].numOxxos == 3
      && r.value[1].alcaldia == "COYOACAN" && r.value[1].numOxxos == 1
      && r.value[2].alcaldia == "IZTAPALAPA" && r.value[2].numOxxos == 2
  {
    ExampleAssignment(stores, boroughs);
    var out := AssignAlcaldias(stores, boroughs, InRectBuffer, Center).value;
    var col := Column(out, "alcaldia");
    ExampleLabels(col);
    var labels := Present(col);
    ExampleGroups(labels);
    ExampleGroupSizes(labels);
    var r := CalculateStatistics(out).value;
    assert |r| == 3;
    assert r[0].alcaldia == "TLALPAN" && r[0].numOxxos == Count("TLALPAN", labels);
    assert r[1].alcaldia == "COYOACAN" && r[1].numOxxos == Count("COYOACAN", labels);
    assert r[2].alcaldia == "IZTAPALAPA" && r[2].numOxxos == Count("IZTAPALAPA", labels);
  }
}
