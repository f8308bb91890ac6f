/**
 * Geographic resolution (`infer_regiao_uf`): the three fixed lookup tables and the
 * first-match chain over the columns NO_REGIAO, SG_UF, CO_UF and CO_MUNICIPIO.
 */
module Geo {
  import opened Wrappers
  import opened Text
  import opened Frames

  const NO_REGIAO := "NO_REGIAO"
  const SG_UF := "SG_UF"
  const CO_UF := "CO_UF"
  const CO_MUNICIPIO := "CO_MUNICIPIO"

  const NORTE := "Norte"
  const NORDESTE := "Nordeste"
  const SUDESTE := "Sudeste"
  const SUL := "Sul"
  const CENTRO_OESTE := "Centro-Oeste"

  const Regions: set<string> := {NORTE, NORDESTE, SUDESTE, SUL, CENTRO_OESTE}

  /** REGIAO_UF: state abbreviation to region. */
  const RegiaoUf: map<string, string> := map[
    "AC" := NORTE, "AP" := NORTE, "AM" := NORTE, "PA" := NORTE, "RO" := NORTE, "RR" := NORTE, "TO" := NORTE,
    "AL" := NORDESTE, "BA" := NORDESTE, "CE" := NORDESTE, "MA" := NORDESTE, "PB" := NORDESTE,
    "PE" := NORDESTE, "PI" := NORDESTE, "RN" := NORDESTE, "SE" := NORDESTE,
    "ES" := SUDESTE, "MG" := SUDESTE, "RJ" := SUDESTE, "SP" := SUDESTE,
    "PR" := SUL, "RS" := SUL, "SC" := SUL,
    "DF" := CENTRO_OESTE, "GO" := CENTRO_OESTE, "MS" := CENTRO_OESTE, "MT" := CENTRO_OESTE]

  /** UF_CODE_TO_REGIAO: numeric state code to region. */
  const UfCodeToRegiao: map<int, string> := map[
    11 := NORTE, 12 := NORTE, 13 := NORTE, 14 := NORTE, 15 := NORTE, 16 := NORTE, 17 := NORTE,
    21 := NORDESTE, 22 := NORDESTE, 23 := NORDESTE, 24 := NORDESTE, 25 := NORDESTE,
    26 := NORDESTE, 27 := NORDESTE, 28 := NORDESTE, 29 := NORDESTE,
    31 := SUDESTE, 32 := SUDESTE, 33 := SUDESTE, 35 := SUDESTE,
    41 := SUL, 42 := SUL, 43 := SUL,
    50 := CENTRO_OESTE, 51 := CENTRO_OESTE, 52 := CENTRO_OESTE, 53 := CENTRO_OESTE]

  /** UF_CODE_TO_SG: numeric state code to state abbreviation. */
  const UfCodeToSg: map<int, string> := map[
    11 := "RO", 12 := "AC", 13 := "AM", 14 := "RR", 15 := "PA", 16 := "AP", 17 := "TO",
    21 := "MA", 22 := "PI", 23 := "CE", 24 := "RN", 25 := "PB", 26 := "PE", 27 := "AL", 28 := "SE", 29 := "BA",
    31 := "MG", 32 := "ES", 33 := "RJ", 35 := "SP",
    41 := "PR", 42 := "SC", 43 := "RS",
    50 := "MS", 51 := "MT", 52 := "GO", 53 := "DF"]

  /** The three tables describe one division of the country: both numeric tables
      have the same codes, and every code's state abbreviation is a key of REGIAO_UF
      whose region is the code's region. */
  lemma TablesAgree()
    ensures UfCodeToSg.Keys == UfCodeToRegiao.Keys
    ensures forall c :: c in UfCodeToSg ==>
      UfCodeToSg[c] in RegiaoUf && RegiaoUf[UfCodeToSg[c]] == UfCodeToRegiao[c]
  {
    forall c | c in UfCodeToSg
      ensures UfCodeToSg[c] in RegiaoUf && RegiaoUf[UfCodeToSg[c]] == UfCodeToRegiao[c]
    {
      if c <= 12 { AgreeCodes11To12(c); }
      else if c <= 14 { AgreeCodes13To14(c); }
      else if c <= 17 { AgreeCodes15To17(c); }
      else if c <= 24 { AgreeCodes21To24(c); }
      else if c <= 29 { AgreeCodes25To29(c); }
      else if c <= 35 { AgreeCodes31To35(c); }
      else if c <= 43 { AgreeCodes41To43(c); }
      else { AgreeCodes50To53(c); }
    }
  }

  // TablesAgree, a few codes at a time.

  lemma AgreeCodes11To12(c: int)
    requires c in UfCodeToSg && 11 <= c <= 12
    ensures UfCodeToSg[c] in RegiaoUf && RegiaoUf[UfCodeToSg[c]] == UfCodeToRegiao[c]
  {
    if c == 11 { assert RegiaoUf["RO"] == UfCodeToRegiao[11]; }
    else if c == 12 { assert RegiaoUf["AC"] == UfCodeToRegiao[12]; }
  }

  lemma AgreeCodes13To14(c: int)
    requires c in UfCodeToSg && 13 <= c <= 14
    ensures UfCodeToSg[c] in RegiaoUf && RegiaoUf[UfCodeToSg[c]] == UfCodeToRegiao[c]
  {
    if c == 13 { assert RegiaoUf["AM"] == UfCodeToRegiao[13]; }
    else if c == 14 { assert RegiaoUf["RR"] == UfCodeToRegiao[14]; }
  }

  lemma AgreeCodes15To17(c: int)
    requires c in UfCodeToSg && 15 <= c <= 17
    ensures UfCodeToSg[c] in RegiaoUf && RegiaoUf[UfCodeToSg[c]] == UfCodeToRegiao[c]
  {
    if c == 15 { assert RegiaoUf["PA"] == UfCodeToRegiao[15]; }
    else if c == 16 { assert RegiaoUf["AP"] == UfCodeToRegiao[16]; }
    else if c == 17 { assert RegiaoUf["TO"] == UfCodeToRegiao[17]; }
  }

  lemma AgreeCodes21To24(c: int)
    requires c in UfCodeToSg && 21 <= c <= 24
    ensures UfCodeToSg[c] in RegiaoUf && RegiaoUf[UfCodeToSg[c]] == UfCodeToRegiao[c]
  {
    if c == 21 { assert RegiaoUf["MA"] == UfCodeToRegiao[21]; }
    else if c == 22 { assert RegiaoUf["PI"] == UfCodeToRegiao[22]; }
    else if c == 23 { assert RegiaoUf["CE"] == UfCodeToRegiao[23]; }
    else if c == 24 { assert RegiaoUf["RN"] == UfCodeToRegiao[24]; }
  }

  lemma AgreeCodes25To29(c: int)
    requires c in UfCodeToSg && 25 <= c <= 29
    ensures UfCodeToSg[c] in RegiaoUf && RegiaoUf[UfCodeToSg[c]] == UfCodeToRegiao[c]
  {
    if c == 25 { assert RegiaoUf["PB"] == UfCodeToRegiao[25]; }
    else if c == 26 { assert RegiaoUf["PE"] == UfCodeToRegiao[26]; }
    else if c == 27 { assert RegiaoUf["AL"] == UfCodeToRegiao[27]; }
    else if c == 28 { assert RegiaoUf["SE"] == UfCodeToRegiao[28]; }
    else if c == 29 { assert RegiaoUf["BA"] == UfCodeToRegiao[29]; }
  }

  lemma AgreeCodes31To35(c: int)
    requires c in UfCodeToSg && 31 <= c <= 35
    ensures UfCodeToSg[c] in RegiaoUf && RegiaoUf[UfCodeToSg[c]] == UfCodeToRegiao[c]
  {
    if c == 31 { assert RegiaoUf["MG"] == UfCodeToRegiao[31]; }
    else if c == 32 { assert RegiaoUf["ES"] == UfCodeToRegiao[32]; }
    else if c == 33 { assert RegiaoUf["RJ"] == UfCodeToRegiao[33]; }
    else if c == 35 { assert RegiaoUf["SP"] == UfCodeToRegiao[35]; }
  }

  lemma AgreeCodes41To43(c: int)
    requires c in UfCodeToSg && 41 <= c <= 43
    ensures UfCodeToSg[c] in RegiaoUf && RegiaoUf[UfCodeToSg[c]] == UfCodeToRegiao[c]
  {
    if c == 41 { assert RegiaoUf["PR"] == UfCodeToRegiao[41]; }
    else if c == 42 { assert RegiaoUf["SC"] == UfCodeToRegiao[42]; }
    else if c == 43 { assert RegiaoUf["RS"] == UfCodeToRegiao[43]; }
  }

  lemma AgreeCodes50To53(c: int)
    requires c in UfCodeToSg && 50 <= c <= 53
    ensures UfCodeToSg[c] in RegiaoUf && RegiaoUf[UfCodeToSg[c]] == UfCodeToRegiao[c]
  {
    if c == 50 { assert RegiaoUf["MS"] == UfCodeToRegiao[50]; }
    else if c == 51 { assert RegiaoUf["MT"] == UfCodeToRegiao[51]; }
    else if c == 52 { assert RegiaoUf["GO"] == UfCodeToRegiao[52]; }
    else if c == 53 { assert RegiaoUf["DF"] == UfCodeToRegiao[53]; }
  }

  /** Every value of the two region tables is one of the five regions. */
  lemma RegionValuesKnown()
    ensures forall s :: s in RegiaoUf ==> RegiaoUf[s] in Regions
    ensures forall c :: c in UfCodeToRegiao ==> UfCodeToRegiao[c] in Regions
  {
  }

  /** `series.map(dict)` for each of the three tables: a key not in the table gives NaN. */
  function RegiaoOfSigla(c: Cell): Cell
  {
    if c.Str? && c.s in RegiaoUf then Str(RegiaoUf[c.s]) else Null
  }

  function RegiaoOfCode(c: Cell): Cell
  {
    if c.Num? && c.n in UfCodeToRegiao then Str(UfCodeToRegiao[c.n]) else Null
  }

  function SiglaOfCode(c: Cell): Cell
  {
    if c.Num? && c.n in UfCodeToSg then Str(UfCodeToSg[c.n]) else Null
  }

  /** `_uf_code`: `int(str(int(x))[:2])`, NaN when any step raises. */
  function UfCode(x: Cell): Option<int>
  {
    match x
    case Null => None
    case Num(n) => ParseInt(Prefix(IntText(n), 2))
    case Str(s) =>
      match ParseInt(s)
      case None => None
      case Some(n) => ParseInt(Prefix(IntText(n), 2))
  }

  /** The state number `_uf_code` reads from a municipality code is its first two
      digits; a code below 10 (one digit, zero or negative) never gives a number
      that is in the tables. */
  lemma UfCodeOfNumber(n: int)
    ensures n >= 10 ==> UfCode(Num(n)) == Some(LeadingTwo(n))
    ensures n < 10 ==> UfCode(Num(n)).None? || UfCode(Num(n)).value < 10
  {
    if n >= 10 {
      LeadingTwoText(n);
    } else if n >= 0 {
      assert IntText(n) == [DigitChar(n)];
      assert Prefix(IntText(n), 2) == [DigitChar(n)];
      assert [DigitChar(n)][..0] == [];
    } else {
      var t := NatText(-n);
      var p := Prefix(IntText(n), 2);
      assert IntText(n) == "-" + t;
      assert p == ['-', t[0]];
      assert p[1..] == [t[0]];
      assert [t[0]][..0] == [];
      var d: int := DigitValue(t[0]);
      assert ParseInt(p) == Some(-d);
    }
  }

  /** The state code cell of `_uf_code`'s result looked up in one of the tables. */
  function SiglaOfUfCode(x: Cell): Cell
  {
    var u := UfCode(x);
    if u.Some? then SiglaOfCode(Num(u.value)) else Null
  }

  function RegiaoOfUfCode(x: Cell): Cell
  {
    var u := UfCode(x);
    if u.Some? then RegiaoOfCode(Num(u.value)) else Null
  }

  /** Whether `infer_regiao_uf` finds a column to resolve from. */
  predicate HasGeoSource(t: Table)
  {
    SG_UF in t.cols || CO_UF in t.cols || CO_MUNICIPIO in t.cols
  }

  /** The columns `infer_regiao_uf` adds to a table. */
  function AddedColumns(t: Table): set<string>
  {
    if NO_REGIAO in t.cols then {}
    else if SG_UF in t.cols then {NO_REGIAO}
    else if CO_UF in t.cols || CO_MUNICIPIO in t.cols then {NO_REGIAO, SG_UF}
    else {}
  }

  /**
   * `infer_regiao_uf`: the table after resolution. Only the first present column among
   * NO_REGIAO, SG_UF, CO_UF and CO_MUNICIPIO is used; no existing column is changed.
   */
  function Inferred(t: Table): (r: Table)
    ensures r.height == t.height
    ensures r.cols.Keys == t.cols.Keys + AddedColumns(t)
    ensures forall c :: c in t.cols ==> r.cols[c] == t.cols[c]
    ensures Valid(t) ==> Valid(r)
  {
    if NO_REGIAO in t.cols then t
    else if SG_UF in t.cols then
      t.(cols := t.cols[NO_REGIAO := MapColumn(t.cols[SG_UF], RegiaoOfSigla)])
    else if CO_UF in t.cols then
      var t1 := t.(cols := t.cols[NO_REGIAO := MapColumn(t.cols[CO_UF], RegiaoOfCode)]);
      if SG_UF !in t1.cols then t1.(cols := t1.cols[SG_UF := MapColumn(t.cols[CO_UF], SiglaOfCode)]) else t1
    else if CO_MUNICIPIO in t.cols then
      var codes := t.cols[CO_MUNICIPIO];
      t.(cols := t.cols[SG_UF := MapColumn(codes, SiglaOfUfCode)][NO_REGIAO := MapColumn(codes, RegiaoOfUfCode)])
    else t
  }

  /** Resolving a second time changes nothing. */
  lemma InferIdempotent(t: Table)
    ensures Inferred(Inferred(t)) == Inferred(t)
  {
  }

  /** After resolution NO_REGIAO is present exactly when some geographic source was. */
  lemma InferGivesRegion(t: Table)
    ensures NO_REGIAO in Inferred(t).cols <==> NO_REGIAO in t.cols || HasGeoSource(t)
  {
  }

  /** Every region the resolver writes is one of the five regions; every state
      abbreviation it writes is a key of REGIAO_UF. */
  lemma {:induction false} InferWritesKnownValues(t: Table, i: nat)
    requires NO_REGIAO !in t.cols && Valid(t) && i < t.height
    ensures At(Inferred(t), NO_REGIAO, i).Str? ==> At(Inferred(t), NO_REGIAO, i).s in Regions
    ensures SG_UF !in t.cols && At(Inferred(t), SG_UF, i).Str? ==> At(Inferred(t), SG_UF, i).s in RegiaoUf
  {
    RegionValuesKnown();
    TablesAgree();
  }

  /**
   * Whichever branch resolved a row, its region is the region of its state: a row with
   * a known state abbreviation has REGIAO_UF of it as region. In the CO_UF and
   * CO_MUNICIPIO branches the state and the region are missing together.
   */
  lemma {:induction false} RegionMatchesState(t: Table, i: nat)
    requires NO_REGIAO !in t.cols && Valid(t) && i < t.height
    ensures var r := Inferred(t);
      var sg := At(r, SG_UF, i);
      sg.Str? && sg.s in RegiaoUf ==> At(r, NO_REGIAO, i) == Str(RegiaoUf[sg.s])
    ensures SG_UF !in t.cols ==> (At(Inferred(t), SG_UF, i) == Null <==> At(Inferred(t), NO_REGIAO, i) == Null)
  {
    TablesAgree();
  }

  /** The integer `int(x)` reads from a municipality cell: a number, or text spelling one. */
  function CodeNumber(x: Cell): Option<int>
  {
    match x
    case Null => None
    case Num(n) => Some(n)
    case Str(s) => ParseInt(s)
  }

  /** In the SG_UF branch, row `i`'s NO_REGIAO comes from its abbreviation alone. */
  lemma SgUfCells(t: Table, i: nat)
    requires NO_REGIAO !in t.cols && SG_UF in t.cols
    requires Valid(t) && i < t.height
    ensures At(Inferred(t), NO_REGIAO, i) == RegiaoOfSigla(At(t, SG_UF, i))
  {
  }

  /**
   * The SG_UF branch: a known abbreviation gives its REGIAO_UF region, and anything else
   * (an unknown abbreviation, a number, NaN) gives a missing region; SG_UF itself is kept.
   */
  lemma SgUfBranch(t: Table, i: nat)
    requires NO_REGIAO !in t.cols && SG_UF in t.cols
    requires Valid(t) && i < t.height
    ensures var x := At(t, SG_UF, i);
      var r := Inferred(t);
      && At(r, SG_UF, i) == x
      && (x.Str? && x.s in RegiaoUf ==> At(r, NO_REGIAO, i) == Str(RegiaoUf[x.s]))
      && (!(x.Str? && x.s in RegiaoUf) ==> At(r, NO_REGIAO, i) == Null)
  {
    SgUfCells(t, i);
  }

  /** In the CO_UF branch, row `i`'s SG_UF and NO_REGIAO come from its state code alone. */
  lemma CoUfCells(t: Table, i: nat)
    requires NO_REGIAO !in t.cols && SG_UF !in t.cols && CO_UF in t.cols
    requires Valid(t) && i < t.height
    ensures At(Inferred(t), SG_UF, i) == SiglaOfCode(At(t, CO_UF, i))
    ensures At(Inferred(t), NO_REGIAO, i) == RegiaoOfCode(At(t, CO_UF, i))
  {
  }

  /**
   * The CO_UF branch: a numeric state code in the tables gives its abbreviation and region,
   * and any other cell gives both missing; a CO_MUNICIPIO column, if any, is not consulted.
   */
  lemma CoUfBranch(t: Table, i: nat)
    requires NO_REGIAO !in t.cols && SG_UF !in t.cols && CO_UF in t.cols
    requires Valid(t) && i < t.height
    ensures var x := At(t, CO_UF, i);
      var r := Inferred(t);
      && (x.Num? && x.n in UfCodeToSg ==>
            At(r, SG_UF, i) == Str(UfCodeToSg[x.n]) && At(r, NO_REGIAO, i) == Str(UfCodeToRegiao[x.n]))
      && (!(x.Num? && x.n in UfCodeToSg) ==> At(r, SG_UF, i) == Null && At(r, NO_REGIAO, i) == Null)
  {
    CoUfCells(t, i);
    TablesAgree();
  }

  /** In the CO_MUNICIPIO branch, row `i`'s SG_UF and NO_REGIAO come from its municipality code. */
  lemma MunicipioCells(t: Table, i: nat)
    requires NO_REGIAO !in t.cols && SG_UF !in t.cols && CO_UF !in t.cols && CO_MUNICIPIO in t.cols
    requires Valid(t) && i < t.height
    ensures At(Inferred(t), SG_UF, i) == SiglaOfUfCode(At(t, CO_MUNICIPIO, i))
    ensures At(Inferred(t), NO_REGIAO, i) == RegiaoOfUfCode(At(t, CO_MUNICIPIO, i))
  {
  }

  /** What `_uf_code` and the two maps make of one municipality cell. */
  lemma UfCodeOfCell(x: Cell)
    ensures var n := CodeNumber(x);
      && (n.Some? && n.value >= 10 && LeadingTwo(n.value) in UfCodeToSg ==>
            SiglaOfUfCode(x) == Str(UfCodeToSg[LeadingTwo(n.value)])
            && RegiaoOfUfCode(x) == Str(UfCodeToRegiao[LeadingTwo(n.value)]))
      && (n.Some? && (n.value < 10 || LeadingTwo(n.value) !in UfCodeToSg) ==>
            SiglaOfUfCode(x) == Null && RegiaoOfUfCode(x) == Null)
      && (n.None? ==> SiglaOfUfCode(x) == Null && RegiaoOfUfCode(x) == Null)
  {
    TablesAgree();
    var n := CodeNumber(x);
    if n.Some? {
      UfCodeOfNumber(n.value);
      assert UfCode(x) == UfCode(Num(n.value));
    }
  }

  /**
   * The CO_MUNICIPIO branch: a municipality code of ten or more, held as a number or as
   * text that `int()` reads, gives its state from its first two digits; a smaller code,
   * text that is not an integer, a missing code, or a prefix not in the tables leaves both
   * SG_UF and NO_REGIAO missing.
   */
  lemma MunicipioBranch(t: Table, i: nat)
    requires NO_REGIAO !in t.cols && SG_UF !in t.cols && CO_UF !in t.cols && CO_MUNICIPIO in t.cols
    requires Valid(t) && i < t.height
    ensures var n := CodeNumber(At(t, CO_MUNICIPIO, i));
      var r := Inferred(t);
      && (n.Some? && n.value >= 10 && LeadingTwo(n.value) in UfCodeToSg ==>
            At(r, SG_UF, i) == Str(UfCodeToSg[LeadingTwo(n.value)])
            && At(r, NO_REGIAO, i) == Str(UfCodeToRegiao[LeadingTwo(n.value)]))
      && (n.Some? && (n.value < 10 || LeadingTwo(n.value) !in UfCodeToSg) ==>
            At(r, SG_UF, i) == Null && At(r, NO_REGIAO, i) == Null)
      && (n.None? ==> At(r, SG_UF, i) == Null && At(r, NO_REGIAO, i) == Null)
  {
    MunicipioCells(t, i);
    UfCodeOfCell(At(t, CO_MUNICIPIO, i));
  }

  /** São Paulo's municipality code 3550308 resolves to state 35, SP, Sudeste. */
  lemma SaoPauloCode()
    ensures UfCode(Num(3550308)) == Some(35)
    ensures SiglaOfUfCode(Num(3550308)) == Str("SP") && RegiaoOfUfCode(Num(3550308)) == Str(SUDESTE)
  {
    UfCodeOfNumber(3550308);
    assert LeadingTwo(3550308) == 35;
  }

  /**
   * The data frame that `infer_regiao_uf` updates in place (`df['NO_REGIAO'] = ...`).
   */
  class Frame {
    var cols: map<string, seq<Cell>>
    var height: nat

    constructor (t: Table)
      ensures cols == t.cols && height == t.height
    {
      cols := t.cols;
      height := t.height;
    }

    function Snapshot(): Table
      reads this
    {
      Table(cols, height)
    }

    /** `df[name] = values`: adds the column or replaces it. */
    method Assign(name: string, values: seq<Cell>)
      requires |values| == height
      modifies this
      ensures cols == old(cols)[name := values] && height == old(height)
    {
      cols := cols[name := values];
    }

    /** `infer_regiao_uf(df)`, changing the frame in place. */
    method InferRegiaoUf()
      requires Valid(Snapshot())
      modifies this
      ensures Snapshot() == Inferred(old(Snapshot()))
      ensures Valid(Snapshot())
    {
      if NO_REGIAO in cols {
        return;
      }
      if SG_UF in cols {
        Assign(NO_REGIAO, MapColumn(cols[SG_UF], RegiaoOfSigla));
        return;
      }
      if CO_UF in cols {
        var codes := cols[CO_UF];
        Assign(NO_REGIAO, MapColumn(codes, RegiaoOfCode));
        if SG_UF !in cols {
          Assign(SG_UF, MapColumn(codes, SiglaOfCode));
        }
        return;
      }
      if CO_MUNICIPIO in cols {
        var codes := cols[CO_MUNICIPIO];
        Assign(SG_UF, MapColumn(codes, SiglaOfUfCode));
        Assign(NO_REGIAO, MapColumn(codes, RegiaoOfUfCode));
        return;
      }
    }
  }
}
