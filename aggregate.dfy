/**
 * Aggregation of the STEM rows: group-by sums per year and geographic key, the
 * public/private pivot, and the guarded ratios of the municipal and micro-region
 * indicator tables; the year-by-region summary.
 */
module Aggregate {
  import opened Wrappers
  import opened Frames
  import opened Records
  import opened Classify

  /** The three groupings: ['ANO', 'NO_REGIAO', 'SG_UF', 'NO_MUNICIPIO', 'CO_MUNICIPIO'],
      ['ANO', 'NO_REGIAO', 'SG_UF', 'NO_MICRORREGIAO_IES', 'CO_MICRORREGIAO_IES'] and
      ['ANO', 'NO_REGIAO']. */
  datatype Level = Municipio | Microrregiao | Regiao

  datatype GroupKey = GroupKey(year: int, geo: seq<Cell>)

  function KeyOf(x: StemRow, lvl: Level): GroupKey
  {
    var c := x.c;
    GroupKey(c.year,
      match lvl
      case Municipio => [c.region, c.sgUf, c.noMunicipio, c.coMunicipio]
      case Microrregiao => [c.region, c.sgUf, c.noMicrorregiao, c.coMicrorregiao]
      case Regiao => [c.region])
  }

  /** pandas' groupby leaves out every row with a NaN key. */
  predicate Complete(k: GroupKey)
  {
    forall i :: 0 <= i < |k.geo| ==> k.geo[i] != Null
  }

  predicate Grouped(x: StemRow, lvl: Level)
  {
    Complete(KeyOf(x, lvl))
  }

  datatype Field = Mat | MatFem | Ing | Conc

  function FieldOf(x: StemRow, f: Field): int
  {
    Amount(match f
      case Mat => x.c.qtMat
      case MatFem => x.c.qtMatFem
      case Ing => x.c.qtIng
      case Conc => x.c.qtConc)
  }

  predicate TipoMatches(x: StemRow, only: Option<Tipo>)
  {
    only.None? || x.tipo == only.value
  }

  /** The `sum` of field `f` over the rows of group `k` (of one institution type when `only` says so). */
  function GroupSum(rows: seq<StemRow>, lvl: Level, k: GroupKey, f: Field, only: Option<Tipo>): int
  {
    if rows == [] then 0
    else
      var x := rows[|rows| - 1];
      GroupSum(rows[..|rows| - 1], lvl, k, f, only) + (if KeyOf(x, lvl) == k && TipoMatches(x, only) then FieldOf(x, f) else 0)
  }

  predicate Distinct(ks: seq<GroupKey>)
  {
    forall i, j :: 0 <= i < j < |ks| ==> ks[i] != ks[j]
  }

  /** The groups of a group-by: each complete key of the rows, once. */
  function DistinctKeys(rows: seq<StemRow>, lvl: Level): (ks: seq<GroupKey>)
    ensures Distinct(ks)
    ensures forall k :: k in ks <==> exists x :: x in rows && Grouped(x, lvl) && KeyOf(x, lvl) == k
    ensures forall k :: k in ks ==> Complete(k)
  {
    if rows == [] then []
    else
      var init := rows[..|rows| - 1];
      var x := rows[|rows| - 1];
      var ks := DistinctKeys(init, lvl);
      assert forall y :: y in rows <==> y in init || y == x;
      if Grouped(x, lvl) && KeyOf(x, lvl) !in ks then ks + [KeyOf(x, lvl)] else ks
  }

  /** `np.where(total > 0, part / total, np.nan)`: a ratio only for a positive total, and
      then the exact quotient, not clamped to [0, 1]. */
  function Share(part: int, total: int): (r: Option<real>)
    ensures r.None? <==> total <= 0
    ensures r.Some? ==> r.value * (total as real) == part as real
  {
    if total > 0 then Some(part as real / total as real) else None
  }

  /** A female count above the total passes through as a share above one. */
  lemma ShareNotClamped()
    ensures Share(12, 10) == Some(1.2)
  {
  }

  /** QT_ING, QT_CONC and TAXA_SUCESSO of a group, present when both columns are. */
  datatype Success = Success(qtIng: int, qtConc: int, taxa: Option<real>)

  /** One row of an indicator table. */
  datatype Indicator = Indicator(
    key: GroupKey, qtMat: int, qtMatFem: int, qtPublica: int, qtPrivada: int,
    pctFem: Option<real>, volume: int, pctPublica: Option<real>, pctPrivada: Option<real>,
    success: Option<Success>)

  function MakeIndicator(rows: seq<StemRow>, lvl: Level, k: GroupKey, withSuccess: bool): Indicator
  {
    var mat := GroupSum(rows, lvl, k, Mat, None);
    var fem := GroupSum(rows, lvl, k, MatFem, None);
    var pub := GroupSum(rows, lvl, k, Mat, Some(Publica));
    var priv := GroupSum(rows, lvl, k, Mat, Some(Privada));
    var success :=
      if withSuccess then
        var ing := GroupSum(rows, lvl, k, Ing, None);
        var conc := GroupSum(rows, lvl, k, Conc, None);
        Some(Success(ing, conc, Share(conc, ing)))
      else None;
    Indicator(k, mat, fem, pub, priv, Share(fem, mat), mat, Share(pub, mat), Share(priv, mat), success)
  }

  /** `base.join(wide).fillna(0)` with its derived columns: one row per group. */
  function Indicators(rows: seq<StemRow>, lvl: Level, withSuccess: bool): (t: seq<Indicator>)
    ensures |t| == |DistinctKeys(rows, lvl)|
    ensures forall i :: 0 <= i < |t| ==> t[i] == MakeIndicator(rows, lvl, DistinctKeys(rows, lvl)[i], withSuccess)
    ensures forall i :: 0 <= i < |t| ==> t[i].key == DistinctKeys(rows, lvl)[i]
  {
    var ks := DistinctKeys(rows, lvl);
    seq(|ks|, i requires 0 <= i < |ks| => MakeIndicator(rows, lvl, ks[i], withSuccess))
  }

  /** `df_ind`: the municipal indicator table over the STEM rows. TAXA_SUCESSO exists when
      both QT_ING and QT_CONC do; each row's QT_MAT is its municipality-year's sum, and the
      table's QT_MAT adds up to that of the STEM rows with a complete municipal key. */
  function MunicipalIndicators(ds: Dataset): (t: seq<Indicator>)
    ensures |t| == |DistinctKeys(SelectStem(ds), Municipio)|
    ensures forall i :: 0 <= i < |t| ==> (t[i].success.Some? <==> ds.hasIng && ds.hasConc)
    ensures forall i :: 0 <= i < |t| ==> t[i].qtMat == GroupSum(SelectStem(ds), Municipio, t[i].key, Mat, None)
    ensures TotalMat(t, None) == SumRows(SelectStem(ds), Municipio, Mat, None)
  {
    IndicatorsConserveTotal(SelectStem(ds), Municipio, ds.hasIng && ds.hasConc, None);
    Indicators(SelectStem(ds), Municipio, ds.hasIng && ds.hasConc)
  }

  /** `df_ind_m`: the micro-region indicator table over the STEM rows; it has no success
      rate, and its QT_MAT adds up to that of the STEM rows with a complete micro-region key. */
  function MicroIndicators(ds: Dataset): (t: seq<Indicator>)
    ensures |t| == |DistinctKeys(SelectStem(ds), Microrregiao)|
    ensures forall i :: 0 <= i < |t| ==> t[i].success.None?
    ensures forall i :: 0 <= i < |t| ==> t[i].qtMat == GroupSum(SelectStem(ds), Microrregiao, t[i].key, Mat, None)
    ensures TotalMat(t, None) == SumRows(SelectStem(ds), Microrregiao, Mat, None)
  {
    IndicatorsConserveTotal(SelectStem(ds), Microrregiao, false, None);
    Indicators(SelectStem(ds), Microrregiao, false)
  }

  /** Every row is either public or private, so the two subtotals of a group add up to its total. */
  lemma {:induction false} PublicPrivateSum(rows: seq<StemRow>, lvl: Level, k: GroupKey, f: Field)
    ensures GroupSum(rows, lvl, k, f, Some(Publica)) + GroupSum(rows, lvl, k, f, Some(Privada))
         == GroupSum(rows, lvl, k, f, None)
  {
    if rows != [] {
      PublicPrivateSum(rows[..|rows| - 1], lvl, k, f);
    }
  }

  /** Two parts that make up a positive total have shares adding up to one. */
  lemma SharesComplement(part: int, rest: int, total: int)
    requires total > 0 && part + rest == total
    ensures Share(part, total).value + Share(rest, total).value == 1.0
  {
    var t := total as real;
    assert Share(part, total).value + Share(rest, total).value == (part as real + rest as real) / t;
  }

  /** The ratios of a group with `pub + priv == mat`: each is missing exactly when `mat <= 0`,
      the female share is the plain quotient, and the public and private shares add up to one. */
  lemma RatioLaws(mat: int, fem: int, pub: int, priv: int)
    requires pub + priv == mat
    ensures var a := Share(fem, mat); var b := Share(pub, mat); var c := Share(priv, mat);
      && (a.None? <==> mat <= 0)
      && (b.None? <==> mat <= 0)
      && (c.None? <==> mat <= 0)
      && (a.Some? ==> a.value * (mat as real) == fem as real)
      && (mat > 0 ==> b.value + c.value == 1.0)
  {
    if mat > 0 {
      SharesComplement(pub, priv, mat);
    }
  }

  /** The counts of an indicator row are its group's sums: QT_MAT_PUBLICA + QT_MAT_PRIVADA
      = QT_MAT and VOLUME_STEM = QT_MAT. */
  lemma IndicatorCounts(rows: seq<StemRow>, lvl: Level, k: GroupKey, withSuccess: bool)
    ensures var r := MakeIndicator(rows, lvl, k, withSuccess);
      && r.key == k
      && r.qtMat == GroupSum(rows, lvl, k, Mat, None)
      && r.qtMatFem == GroupSum(rows, lvl, k, MatFem, None)
      && r.qtPublica + r.qtPrivada == r.qtMat
      && r.volume == r.qtMat
  {
    PublicPrivateSum(rows, lvl, k, Mat);
  }

  /** PCT_FEM_STEM, PCT_PUBLICA and PCT_PRIVADA are missing exactly when QT_MAT <= 0. */
  lemma IndicatorRatiosDefined(rows: seq<StemRow>, lvl: Level, k: GroupKey, withSuccess: bool)
    ensures var r := MakeIndicator(rows, lvl, k, withSuccess);
      && (r.pctFem.None? <==> r.qtMat <= 0)
      && (r.pctPublica.None? <==> r.qtMat <= 0)
      && (r.pctPrivada.None? <==> r.qtMat <= 0)
  {
  }

  /** When present, PCT_FEM_STEM is QT_MAT_FEM / QT_MAT, and PCT_PUBLICA + PCT_PRIVADA = 1. */
  lemma IndicatorRatioValues(rows: seq<StemRow>, lvl: Level, k: GroupKey, withSuccess: bool)
    ensures var r := MakeIndicator(rows, lvl, k, withSuccess);
      && (r.pctFem.Some? ==> r.pctFem.value * (r.qtMat as real) == r.qtMatFem as real)
      && (r.qtMat > 0 ==> r.pctPublica.value + r.pctPrivada.value == 1.0)
  {
    var mat := GroupSum(rows, lvl, k, Mat, None);
    var pub := GroupSum(rows, lvl, k, Mat, Some(Publica));
    var priv := GroupSum(rows, lvl, k, Mat, Some(Privada));
    var fem := GroupSum(rows, lvl, k, MatFem, None);
    PublicPrivateSum(rows, lvl, k, Mat);
    RatioLaws(mat, fem, pub, priv);
  }

  /** QT_ING and QT_CONC are present exactly when both columns are, and are the group's sums. */
  lemma SuccessCounts(rows: seq<StemRow>, lvl: Level, k: GroupKey, withSuccess: bool)
    ensures var r := MakeIndicator(rows, lvl, k, withSuccess);
      && (r.success.Some? <==> withSuccess)
      && (r.success.Some? ==> r.success.value.qtIng == GroupSum(rows, lvl, k, Ing, None))
      && (r.success.Some? ==> r.success.value.qtConc == GroupSum(rows, lvl, k, Conc, None))
  {
  }

  /** TAXA_SUCESSO is missing exactly when QT_ING <= 0, and otherwise QT_CONC / QT_ING. */
  lemma SuccessRate(rows: seq<StemRow>, lvl: Level, k: GroupKey, withSuccess: bool)
    ensures var r := MakeIndicator(rows, lvl, k, withSuccess);
      && (r.success.Some? ==> (r.success.value.taxa.None? <==> r.success.value.qtIng <= 0))
      && (r.success.Some? && r.success.value.taxa.Some? ==>
            r.success.value.taxa.value * (r.success.value.qtIng as real) == r.success.value.qtConc as real)
  {
  }

  /** The table has one row per group: its keys are distinct, each is the key of some
      grouped row, and each grouped row's key is in the table. */
  lemma IndicatorKeys(rows: seq<StemRow>, lvl: Level, withSuccess: bool)
    ensures var t := Indicators(rows, lvl, withSuccess);
      && (forall i, j :: 0 <= i < j < |t| ==> t[i].key != t[j].key)
      && (forall i :: 0 <= i < |t| ==> exists x :: x in rows && Grouped(x, lvl) && KeyOf(x, lvl) == t[i].key)
      && (forall x :: x in rows && Grouped(x, lvl) ==> exists i :: 0 <= i < |t| && t[i].key == KeyOf(x, lvl))
  {
    var t := Indicators(rows, lvl, withSuccess);
    var ks := DistinctKeys(rows, lvl);
    forall i | 0 <= i < |t| ensures exists x :: x in rows && Grouped(x, lvl) && KeyOf(x, lvl) == t[i].key {
      assert ks[i] in ks;
    }
    forall x | x in rows && Grouped(x, lvl) ensures exists i :: 0 <= i < |t| && t[i].key == KeyOf(x, lvl) {
      assert KeyOf(x, lvl) in ks;
      var i :| 0 <= i < |ks| && ks[i] == KeyOf(x, lvl);
      assert t[i].key == KeyOf(x, lvl);
    }
  }

  predicate InYear(year: int, y: Option<int>)
  {
    y.None? || year == y.value
  }

  /** The sum of field `f` over the grouped rows (of year `y`, when given). */
  function SumRows(rows: seq<StemRow>, lvl: Level, f: Field, y: Option<int>): int
  {
    if rows == [] then 0
    else
      var x := rows[|rows| - 1];
      SumRows(rows[..|rows| - 1], lvl, f, y) + (if Grouped(x, lvl) && InYear(x.c.year, y) then FieldOf(x, f) else 0)
  }

  /** The sum of the group sums over the keys `ks` (of year `y`, when given). */
  function SumKeys(rows: seq<StemRow>, lvl: Level, ks: seq<GroupKey>, f: Field, y: Option<int>): int
  {
    if ks == [] then 0
    else
      var k := ks[|ks| - 1];
      SumKeys(rows, lvl, ks[..|ks| - 1], f, y) + (if InYear(k.year, y) then GroupSum(rows, lvl, k, f, None) else 0)
  }

  lemma {:induction false} GroupSumAbsent(rows: seq<StemRow>, lvl: Level, k: GroupKey, f: Field, only: Option<Tipo>)
    requires forall x :: x in rows ==> KeyOf(x, lvl) != k
    ensures GroupSum(rows, lvl, k, f, only) == 0
  {
    if rows != [] {
      GroupSumAbsent(rows[..|rows| - 1], lvl, k, f, only);
    }
  }

  lemma {:induction false} SumKeysAddRow(rows: seq<StemRow>, x: StemRow, lvl: Level, ks: seq<GroupKey>, f: Field, y: Option<int>)
    requires Distinct(ks)
    ensures SumKeys(rows + [x], lvl, ks, f, y)
         == SumKeys(rows, lvl, ks, f, y) + (if KeyOf(x, lvl) in ks && InYear(x.c.year, y) then FieldOf(x, f) else 0)
  {
    assert (rows + [x])[..|rows|] == rows;
    if ks != [] {
      var init := ks[..|ks| - 1];
      var k := ks[|ks| - 1];
      assert Distinct(init);
      SumKeysAddRow(rows, x, lvl, init, f, y);
      assert KeyOf(x, lvl) in ks <==> KeyOf(x, lvl) in init || KeyOf(x, lvl) == k;
      assert k !in init;
    }
  }

  /** The new key of a row that opens a group adds that row's amount, and nothing else. */
  lemma NewGroupStep(p: seq<StemRow>, x: StemRow, lvl: Level, f: Field, y: Option<int>)
    requires Grouped(x, lvl) && KeyOf(x, lvl) !in DistinctKeys(p, lvl)
    ensures var ks := DistinctKeys(p, lvl); var k := KeyOf(x, lvl);
      SumKeys(p + [x], lvl, ks + [k], f, y)
        == SumKeys(p, lvl, ks, f, y) + (if InYear(x.c.year, y) then FieldOf(x, f) else 0)
  {
    var ks := DistinctKeys(p, lvl);
    var k := KeyOf(x, lvl);
    assert forall z :: z in p ==> KeyOf(z, lvl) != k;
    GroupSumAbsent(p, lvl, k, f, None);
    assert (p + [x])[..|p|] == p;
    assert (ks + [k])[..|ks|] == ks;
    SumKeysAddRow(p, x, lvl, ks, f, y);
  }

  /** Grouping loses nothing: the group sums over all groups (of a year) add up to the sum
      over every row with a complete key (of that year). */
  lemma {:induction false} Regroup(rows: seq<StemRow>, lvl: Level, f: Field, y: Option<int>)
    ensures SumKeys(rows, lvl, DistinctKeys(rows, lvl), f, y) == SumRows(rows, lvl, f, y)
  {
    if rows != [] {
      var p := rows[..|rows| - 1];
      var x := rows[|rows| - 1];
      assert rows == p + [x];
      var ks := DistinctKeys(p, lvl);
      var k := KeyOf(x, lvl);
      Regroup(p, lvl, f, y);
      assert SumRows(rows, lvl, f, y) == SumRows(p, lvl, f, y) + (if Grouped(x, lvl) && InYear(x.c.year, y) then FieldOf(x, f) else 0);
      if Grouped(x, lvl) && k !in ks {
        assert DistinctKeys(rows, lvl) == ks + [k];
        NewGroupStep(p, x, lvl, f, y);
      } else {
        assert DistinctKeys(rows, lvl) == ks;
        SumKeysAddRow(p, x, lvl, ks, f, y);
      }
    }
  }

  /** The total of QT_MAT over the rows of an indicator table (of a year, when given). */
  function TotalMat(t: seq<Indicator>, y: Option<int>): int
  {
    if t == [] then 0
    else
      var r := t[|t| - 1];
      TotalMat(t[..|t| - 1], y) + (if InYear(r.key.year, y) then r.qtMat else 0)
  }

  lemma {:induction false} TotalMatOfKeys(rows: seq<StemRow>, lvl: Level, ks: seq<GroupKey>, w: bool, y: Option<int>)
    ensures TotalMat(seq(|ks|, i requires 0 <= i < |ks| => MakeIndicator(rows, lvl, ks[i], w)), y)
         == SumKeys(rows, lvl, ks, Mat, y)
  {
    if ks != [] {
      var init := ks[..|ks| - 1];
      var t := seq(|ks|, i requires 0 <= i < |ks| => MakeIndicator(rows, lvl, ks[i], w));
      assert t[..|t| - 1] == seq(|init|, i requires 0 <= i < |init| => MakeIndicator(rows, lvl, init[i], w));
      TotalMatOfKeys(rows, lvl, init, w, y);
    }
  }

  /** Enrolment is conserved by the indicator tables: the QT_MAT of all groups of a year add
      up to the QT_MAT of that year's STEM rows whose key is complete. */
  lemma IndicatorsConserveTotal(rows: seq<StemRow>, lvl: Level, w: bool, y: Option<int>)
    ensures TotalMat(Indicators(rows, lvl, w), y) == SumRows(rows, lvl, Mat, y)
  {
    var ks := DistinctKeys(rows, lvl);
    assert Indicators(rows, lvl, w) == seq(|ks|, i requires 0 <= i < |ks| => MakeIndicator(rows, lvl, ks[i], w));
    TotalMatOfKeys(rows, lvl, ks, w, y);
    Regroup(rows, lvl, Mat, y);
  }

  /** One row of `resumo_anual`: the QT_MAT and QT_MAT_FEM sums of a year and region. */
  datatype Totals = Totals(key: GroupKey, qtMat: int, qtMatFem: int)

  /** `resumo_anual = df_stem.groupby(['ANO', 'NO_REGIAO']).agg(sum)`: one row per year and
      region present among the rows with a region, each holding that group's QT_MAT and
      QT_MAT_FEM sums. */
  function RegionSummary(rows: seq<StemRow>): (s: seq<Totals>)
    ensures |s| == |DistinctKeys(rows, Regiao)|
    ensures forall i :: 0 <= i < |s| ==> s[i].key == DistinctKeys(rows, Regiao)[i]
    ensures forall i, j :: 0 <= i < j < |s| ==> s[i].key != s[j].key
    ensures forall i :: 0 <= i < |s| ==>
      s[i].qtMat == GroupSum(rows, Regiao, s[i].key, Mat, None) && s[i].qtMatFem == GroupSum(rows, Regiao, s[i].key, MatFem, None)
  {
    var ks := DistinctKeys(rows, Regiao);
    var s := seq(|ks|, i requires 0 <= i < |ks| =>
      Totals(ks[i], GroupSum(rows, Regiao, ks[i], Mat, None), GroupSum(rows, Regiao, ks[i], MatFem, None)));
    assert forall i :: 0 <= i < |s| ==> s[i].key == ks[i];
    s
  }

  /** Each row of `resumo_anual` is a year and a region that some STEM row has, and each
      STEM row with a region has its year and region in the summary. */
  lemma RegionSummaryKeys(rows: seq<StemRow>)
    ensures var s := RegionSummary(rows);
      && (forall i :: 0 <= i < |s| ==>
            |s[i].key.geo| == 1 && s[i].key.geo[0] != Null &&
            exists x :: x in rows && x.c.year == s[i].key.year && x.c.region == s[i].key.geo[0])
      && (forall x :: x in rows && x.c.region != Null ==>
            exists i :: 0 <= i < |s| && s[i].key == GroupKey(x.c.year, [x.c.region]))
  {
    var s := RegionSummary(rows);
    var ks := DistinctKeys(rows, Regiao);
    forall i | 0 <= i < |s|
      ensures |s[i].key.geo| == 1 && s[i].key.geo[0] != Null
      ensures exists x :: x in rows && x.c.year == s[i].key.year && x.c.region == s[i].key.geo[0]
    {
      assert ks[i] in ks;
      var x :| x in rows && Grouped(x, Regiao) && KeyOf(x, Regiao) == ks[i];
      assert x.c.year == s[i].key.year && x.c.region == s[i].key.geo[0];
    }
    forall x | x in rows && x.c.region != Null
      ensures exists i :: 0 <= i < |s| && s[i].key == GroupKey(x.c.year, [x.c.region])
    {
      assert Complete(KeyOf(x, Regiao));
      assert KeyOf(x, Regiao) in ks;
      var i :| 0 <= i < |ks| && ks[i] == KeyOf(x, Regiao);
      assert s[i].key == GroupKey(x.c.year, [x.c.region]);
    }
  }

  /** Row `y` of `resumo_media_w = resumo_anual.groupby('ANO').agg(sum)`, for field QT_MAT or QT_MAT_FEM. */
  function YearTotal(s: seq<Totals>, y: int, f: Field): int
    requires f == Mat || f == MatFem
  {
    if s == [] then 0
    else
      var r := s[|s| - 1];
      YearTotal(s[..|s| - 1], y, f) + (if r.key.year == y then (if f == Mat then r.qtMat else r.qtMatFem) else 0)
  }

  lemma {:induction false} YearTotalOfKeys(rows: seq<StemRow>, ks: seq<GroupKey>, y: int, f: Field)
    requires f == Mat || f == MatFem
    ensures YearTotal(seq(|ks|, i requires 0 <= i < |ks| =>
                Totals(ks[i], GroupSum(rows, Regiao, ks[i], Mat, None), GroupSum(rows, Regiao, ks[i], MatFem, None))), y, f)
         == SumKeys(rows, Regiao, ks, f, Some(y))
  {
    if ks != [] {
      var init := ks[..|ks| - 1];
      var s := seq(|ks|, i requires 0 <= i < |ks| =>
                Totals(ks[i], GroupSum(rows, Regiao, ks[i], Mat, None), GroupSum(rows, Regiao, ks[i], MatFem, None)));
      assert s[..|s| - 1] == seq(|init|, i requires 0 <= i < |init| =>
                Totals(init[i], GroupSum(rows, Regiao, init[i], Mat, None), GroupSum(rows, Regiao, init[i], MatFem, None)));
      YearTotalOfKeys(rows, init, y, f);
    }
  }

  /** Summing the year's regions again (`resumo_media_w`) gives the year's total over its
      STEM rows with a region. */
  lemma YearSummaryConserves(rows: seq<StemRow>, y: int, f: Field)
    requires f == Mat || f == MatFem
    ensures YearTotal(RegionSummary(rows), y, f) == SumRows(rows, Regiao, f, Some(y))
  {
    YearTotalOfKeys(rows, DistinctKeys(rows, Regiao), y, f);
    Regroup(rows, Regiao, f, Some(y));
  }

  /** `QT_MAT_FEM / QT_MAT * 100` of `resumo_anual` and `resumo_media_w`, for a positive total. */
  function Percent(part: int, total: int): (r: real)
    requires total > 0
    ensures r * (total as real) == 100.0 * (part as real)
  {
    100.0 * (part as real) / (total as real)
  }
}
