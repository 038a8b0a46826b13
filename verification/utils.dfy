/** Shared helpers of the pipeline (scripts/utils.py): the in-place repair of
    invalid geometries, the conversion of two layers to one reference system,
    and the static table of the 24 local electoral districts. */
module Utils {
  import opened Wrappers
  import opened Tables

  // ---------------------------------------------------------------------
  // validate_geometry

  /** The number of geometries that pass the validity test (`is_valid.sum()`). */
  function NumValid<G>(s: seq<G>, isValid: G -> bool): nat
  {
    if |s| == 0 then 0
    else NumValid(s[..|s| - 1], isValid) + (if isValid(s[|s| - 1]) then 1 else 0)
  }

  /** The geometry column after the masked repair: each row that fails the
      validity test is replaced by its repair (the zero-width buffer), every
      other row is left as it was. A repair that is still invalid stays in
      place; nothing is dropped. */
  function Repaired<G>(s: seq<G>, isValid: G -> bool, repair: G -> G): seq<G>
  {
    seq(|s|, i requires 0 <= i < |s| => if isValid(s[i]) then s[i] else repair(s[i]))
  }

  /** A column whose every geometry is valid is its own repair, so the
      early exit taken when nothing is invalid returns the same column. */
  lemma {:induction false} AllValidUnchanged<G>(s: seq<G>, isValid: G -> bool, repair: G -> G)
    ensures NumValid(s, isValid) <= |s|
    ensures NumValid(s, isValid) == |s| <==> forall i | 0 <= i < |s| :: isValid(s[i])
    ensures NumValid(s, isValid) == |s| ==> Repaired(s, isValid, repair) == s
  {
    if |s| > 0 {
      AllValidUnchanged(s[..|s| - 1], isValid, repair);
      assert s == s[..|s| - 1] + [s[|s| - 1]];
    }
  }

  /** The repair never makes things worse: every row valid before is valid
      after, so the valid count cannot fall, and the row count is kept. */
  lemma {:induction false} RepairKeepsValid<G>(s: seq<G>, isValid: G -> bool, repair: G -> G)
    ensures |Repaired(s, isValid, repair)| == |s|
    ensures NumValid(Repaired(s, isValid, repair), isValid) >= NumValid(s, isValid)
  {
    if |s| > 0 {
      var p := s[..|s| - 1];
      RepairKeepsValid(p, isValid, repair);
      var r := Repaired(s, isValid, repair);
      assert r[..|s| - 1] == Repaired(p, isValid, repair);
    }
  }

  /** validate_geometry: counts the valid geometries and, only when some are
      invalid, overwrites exactly the invalid rows of the column with their
      repair, in place, in one masked assignment. */
  method ValidateGeometry<G>(geometry: array<G>, isValid: G -> bool, repair: G -> G)
    modifies geometry
    ensures geometry[..] == Repaired(old(geometry[..]), isValid, repair)
  {
    var validGeoms := NumValid(geometry[..], isValid);
    var totalGeoms := geometry.Length;
    if validGeoms < totalGeoms {
      forall i | 0 <= i < geometry.Length && !isValid(geometry[i]) {
        geometry[i] := repair(geometry[i]);
      }
    } else {
      AllValidUnchanged(geometry[..], isValid, repair);
    }
  }

  /** validate_geometry applied to a whole table: the geometry column is
      replaced by its repair and every other cell is left alone. */
  function RepairTable<G>(t: Table<G>, isValid: G -> bool, repair: G -> G): (r: Table<G>)
    ensures r.columns == t.columns && |r.rows| == |t.rows|
    ensures Geometries(r) == Repaired(Geometries(t), isValid, repair)
    ensures forall i | 0 <= i < |t.rows| :: r.rows[i].cells == t.rows[i].cells
  {
    var r := Table(t.columns, seq(|t.rows|, i requires 0 <= i < |t.rows| =>
      var g := t.rows[i].geometry;
      t.rows[i].(geometry := if isValid(g) then g else repair(g))));
    assert Geometries(r) == Repaired(Geometries(t), isValid, repair);
    r
  }

  // ---------------------------------------------------------------------
  // ensure_same_crs

  /** The reference system `ensure_same_crs` converts to by default. */
  const Wgs84: string := "EPSG:4326"

  /** A geometry collection with its declared reference system (`None` when
      the file declared none). */
  datatype Layer<G> = Layer(crs: Option<string>, geoms: seq<G>)

  /** `to_crs`: every geometry carried through the coordinate transformation
      `transform(from, to, g)`; a layer with no declared system cannot be
      transformed and the call fails. */
  function ToCrs<G>(l: Layer<G>, target: string, transform: (string, string, G) -> G): Option<Layer<G>>
  {
    match l.crs
    case None => None
    case Some(from) =>
      Some(Layer(Some(target), seq(|l.geoms|, i requires 0 <= i < |l.geoms| => transform(from, target, l.geoms[i]))))
  }

  /** ensure_same_crs: each layer not already in `target` is converted to it;
      one already in `target` is returned as it is. `None` stands for the
      exception `to_crs` raises on a layer with no declared system. */
  function EnsureSameCrs<G>(a: Layer<G>, b: Layer<G>, target: string, transform: (string, string, G) -> G)
    : (r: Option<(Layer<G>, Layer<G>)>)
    ensures r.None? <==> a.crs.None? || b.crs.None?
    ensures r.Some? ==> r.value.0.crs == Some(target) && r.value.1.crs == Some(target)
    ensures r.Some? ==> |r.value.0.geoms| == |a.geoms| && |r.value.1.geoms| == |b.geoms|
    ensures r.Some? && a.crs == Some(target) ==> r.value.0 == a
    ensures r.Some? && b.crs == Some(target) ==> r.value.1 == b
  {
    var a' := if a.crs == Some(target) then Some(a) else ToCrs(a, target, transform);
    var b' := if b.crs == Some(target) then Some(b) else ToCrs(b, target, transform);
    if a'.None? || b'.None? then None else Some((a'.value, b'.value))
  }

  // ---------------------------------------------------------------------
  // create_electoral_districts

  /** The attributes of one synthetic district; `participacion` is carried as
      an integer number of tenths of a percent (58.2 is 582). */
  datatype DistrictInfo = DistrictInfo(alcaldia: string, diputadoGanador: string, votosDistrito: nat, participacion: int)

  /** The district dictionary, in its insertion order (the order iteration
      over it follows). */
  function ElectoralDistricts(): seq<(string, DistrictInfo)>
  {
    [ ("DISTRITO_01", DistrictInfo("GUSTAVO A MADERO", "MORENA", 95000, 582)),
      ("DISTRITO_02", DistrictInfo("GUSTAVO A MADERO", "MORENA", 87000, 558)),
      ("DISTRITO_03", DistrictInfo("AZCAPOTZALCO", "MORENA", 89000, 614)),
      ("DISTRITO_04", DistrictInfo("MIGUEL HIDALGO", "PAN", 78000, 672)),
      ("DISTRITO_05", DistrictInfo("CUAUHTEMOC", "MORENA", 82000, 638)),
      ("DISTRITO_06", DistrictInfo("VENUSTIANO CARRANZA", "MORENA", 91000, 597)),
      ("DISTRITO_07", DistrictInfo("IZTACALCO", "MORENA", 85000, 621)),
      ("DISTRITO_08", DistrictInfo("BENITO JUAREZ", "PAN", 93000, 715)),
      ("DISTRITO_09", DistrictInfo("IZTAPALAPA", "MORENA", 105000, 543)),
      ("DISTRITO_10", DistrictInfo("IZTAPALAPA", "MORENA", 98000, 528)),
      ("DISTRITO_11", DistrictInfo("IZTAPALAPA", "MORENA", 102000, 536)),
      ("DISTRITO_12", DistrictInfo("IZTAPALAPA", "MORENA", 96000, 519)),
      ("DISTRITO_13", DistrictInfo("XOCHIMILCO", "MORENA", 79000, 564)),
      ("DISTRITO_14", DistrictInfo("TLAHUAC", "MORENA", 73000, 587)),
      ("DISTRITO_15", DistrictInfo("MILPA ALTA", "MORENA", 48000, 612)),
      ("DISTRITO_16", DistrictInfo("TLALPAN", "MORENA", 92000, 603)),
      ("DISTRITO_17", DistrictInfo("COYOACAN", "MORENA", 88000, 658)),
      ("DISTRITO_18", DistrictInfo("COYOACAN", "MORENA", 91000, 642)),
      ("DISTRITO_19", DistrictInfo("ALVARO OBREGON", "MORENA", 94000, 591)),
      ("DISTRITO_20", DistrictInfo("ALVARO OBREGON", "MORENA", 87000, 578)),
      ("DISTRITO_21", DistrictInfo("MAGDALENA CONTRERAS", "MORENA", 71000, 609)),
      ("DISTRITO_22", DistrictInfo("CUAJIMALPA", "PAN", 65000, 684)),
      ("DISTRITO_23", DistrictInfo("GUSTAVO A MADERO", "MORENA", 89000, 567)),
      ("DISTRITO_24", DistrictInfo("AZCAPOTZALCO", "MORENA", 81000, 593)) ]
  }

  /** The key of district `n`: `DISTRITO_` and `n` on two digits. */
  function DistrictKey(n: nat): string
    requires 1 <= n <= 99
  {
    "DISTRITO_" + [(('0' as int) + n / 10) as char, (('0' as int) + n % 10) as char]
  }

  /** The table has exactly 24 entries, keyed `DISTRITO_01` to `DISTRITO_24`
      in that order, so its keys are pairwise distinct. */
  lemma ElectoralDistrictsKeys()
    ensures |ElectoralDistricts()| == 24
    ensures forall i | 0 <= i < 24 :: ElectoralDistricts()[i].0 == DistrictKey(i + 1)
    ensures forall i, j | 0 <= i < j < 24 :: ElectoralDistricts()[i].0 != ElectoralDistricts()[j].0
  {
    var d := ElectoralDistricts();
    forall i | 0 <= i < 24
      ensures d[i].0 == DistrictKey(i + 1)
    {
      DistrictKeyDigits(i + 1);
    }
    forall i, j | 0 <= i < j < 24
      ensures d[i].0 != d[j].0
    {
      DistrictKeyInjective(i + 1, j + 1);
    }
  }

  lemma DistrictKeyDigits(n: nat)
    requires 1 <= n <= 24
    ensures ElectoralDistricts()[n - 1].0 == DistrictKey(n)
  {
  }

  lemma DistrictKeyInjective(m: nat, n: nat)
    requires 1 <= m < n <= 99
    ensures DistrictKey(m) != DistrictKey(n)
  {
    var km, kn := DistrictKey(m), DistrictKey(n);
    assert m / 10 != n / 10 || m % 10 != n % 10;
    assert km[9] != kn[9] || km[10] != kn[10];
  }
}
