/**
 * Per-year record normalisation (`load_cursos` without the file read), the year token
 * of course file names, and the year loop that gathers the non-empty years.
 */
module Records {
  import opened Wrappers
  import opened Text
  import opened Frames
  import opened Sorting
  import Geo

  const NO_MUNICIPIO := "NO_MUNICIPIO"
  const TP_CATEGORIA_ADMINISTRATIVA := "TP_CATEGORIA_ADMINISTRATIVA"
  const NO_CINE_AREA_GERAL := "NO_CINE_AREA_GERAL"
  const NO_OCDE_AREA_GERAL := "NO_OCDE_AREA_GERAL"
  const CO_CINE_AREA_GERAL := "CO_CINE_AREA_GERAL"
  const QT_MAT := "QT_MAT"
  const QT_MAT_FEM := "QT_MAT_FEM"
  const CO_IES := "CO_IES"
  const QT_ING := "QT_ING"
  const QT_CONC := "QT_CONC"

  /** The geography of one institution (NO_/CO_MICRORREGIAO_IES, NO_/CO_MUNICIPIO_IES). */
  datatype IesGeo = IesGeo(noMicrorregiao: Cell, coMicrorregiao: Cell, noMunicipio: Cell, coMunicipio: Cell)

  /** The geography a course gets when its institution is not in the table (a left join's NaN). */
  const NoIes := IesGeo(Null, Null, Null, Null)

  /** The institution table of one year, keyed by CO_IES (one row per institution). */
  type IesMap = map<Cell, IesGeo>

  /** One normalised course row of one year. */
  datatype Course = Course(
    region: Cell, sgUf: Cell, noMunicipio: Cell, coMunicipio: Cell, categoria: Cell,
    area: Cell, coCine: Cell, qtMat: Cell, qtMatFem: Cell, coIes: Cell,
    qtIng: Cell, qtConc: Cell, noMicrorregiao: Cell, coMicrorregiao: Cell, year: int)

  /** A year's table: its rows, and whether its file had the QT_ING and QT_CONC columns. */
  datatype YearTable = YearTable(hasIng: bool, hasConc: bool, rows: seq<Course>)

  /** What `load_cursos` returns: the table, or the empty `pd.DataFrame()` of its except branch. */
  datatype Load = Loaded(table: YearTable) | Failed

  /** The two regions the study keeps. */
  predicate InScope(c: Course)
  {
    c.region == Str(Geo.NORDESTE) || c.region == Str(Geo.SUDESTE)
  }

  /** The area-name column: the newer CINE name when present, else the older OCDE name. */
  function AreaColumn(t: Table): string
  {
    if NO_CINE_AREA_GERAL in t.cols then NO_CINE_AREA_GERAL else NO_OCDE_AREA_GERAL
  }

  /** The columns `load_cursos` projects; without any of them it raises. */
  function RequiredColumns(area: string): set<string>
  {
    {Geo.NO_REGIAO, Geo.SG_UF, NO_MUNICIPIO, Geo.CO_MUNICIPIO, TP_CATEGORIA_ADMINISTRATIVA,
     area, CO_CINE_AREA_GERAL, QT_MAT, QT_MAT_FEM, CO_IES}
  }

  predicate HasRequired(t: Table)
  {
    RequiredColumns(AreaColumn(t)) <= t.cols.Keys
  }

  /** The institution row a course joins to. */
  function IesOf(ies: IesMap, key: Cell): IesGeo
  {
    if key in ies then ies[key] else NoIes
  }

  /** Row `i` after projection, the left join on CO_IES, the municipality backfill and the year tag. */
  function MakeCourse(t: Table, i: nat, area: string, ies: IesMap, year: int): Course
  {
    var g := if |ies| > 0 then IesOf(ies, At(t, CO_IES, i)) else NoIes;
    Course(
      At(t, Geo.NO_REGIAO, i), At(t, Geo.SG_UF, i),
      FillNa(At(t, NO_MUNICIPIO, i), g.noMunicipio), FillNa(At(t, Geo.CO_MUNICIPIO, i), g.coMunicipio),
      At(t, TP_CATEGORIA_ADMINISTRATIVA, i), At(t, area, i), At(t, CO_CINE_AREA_GERAL, i),
      At(t, QT_MAT, i), At(t, QT_MAT_FEM, i), At(t, CO_IES, i),
      At(t, QT_ING, i), At(t, QT_CONC, i), g.noMicrorregiao, g.coMicrorregiao, year)
  }

  function AllCourses(t: Table, area: string, ies: IesMap, year: int): (cs: seq<Course>)
    ensures |cs| == t.height
    ensures forall i :: 0 <= i < t.height ==> cs[i] == MakeCourse(t, i, area, ies, year)
    ensures forall c :: c in cs ==> c.year == year
  {
    seq(t.height, i requires 0 <= i < t.height => MakeCourse(t, i, area, ies, year))
  }

  /** `df[df['NO_REGIAO'].isin(['Nordeste', 'Sudeste'])]`: order and multiplicity are kept. */
  function KeepInScope(cs: seq<Course>): (r: seq<Course>)
    ensures forall c :: c in r ==> InScope(c) && c in cs
    ensures forall c :: multiset(r)[c] == if InScope(c) then multiset(cs)[c] else 0
  {
    if cs == [] then []
    else
      assert cs == [cs[0]] + cs[1..];
      (if InScope(cs[0]) then [cs[0]] else []) + KeepInScope(cs[1..])
  }

  /**
   * `load_cursos(ano)` on the file's contents (`None` when the file cannot be read).
   * Every row it keeps is a Nordeste or Sudeste row tagged with the year, and it fails
   * (an empty frame) exactly when the file is unreadable or a required column is
   * missing after geographic resolution.
   */
  function LoadCursos(file: Option<Table>, ies: IesMap, year: int): (r: Load)
    ensures r.Loaded? ==> forall c :: c in r.table.rows ==> InScope(c) && c.year == year
    ensures r.Failed? <==> file.None? || !HasRequired(Geo.Inferred(file.value))
    ensures r.Loaded? ==> (r.table.hasIng <==> QT_ING in Geo.Inferred(file.value).cols)
    ensures r.Loaded? ==> (r.table.hasConc <==> QT_CONC in Geo.Inferred(file.value).cols)
  {
    match file
    case None => Failed
    case Some(raw) =>
      var t := Geo.Inferred(raw);
      if !HasRequired(t) then Failed
      else
        var area := AreaColumn(t);
        Loaded(YearTable(QT_ING in t.cols, QT_CONC in t.cols, KeepInScope(AllCourses(t, area, ies, year))))
  }

  /**
   * A row of a loaded year keeps its own municipality name and code when the course
   * file has them and takes its institution's only where they are missing; an in-scope
   * row of the file is kept.
   */
  lemma BackfillOnlyMissing(raw: Table, ies: IesMap, year: int, i: nat)
    requires i < raw.height
    ensures var t := Geo.Inferred(raw);
      var c := MakeCourse(t, i, AreaColumn(t), ies, year);
      var own := At(t, NO_MUNICIPIO, i);
      var ownCode := At(t, Geo.CO_MUNICIPIO, i);
      && (own != Null ==> c.noMunicipio == own)
      && (ownCode != Null ==> c.coMunicipio == ownCode)
      && (own == Null && At(t, CO_IES, i) in ies ==> c.noMunicipio == ies[At(t, CO_IES, i)].noMunicipio)
      && (ownCode == Null && At(t, CO_IES, i) in ies ==> c.coMunicipio == ies[At(t, CO_IES, i)].coMunicipio)
      && (At(t, CO_IES, i) !in ies ==> c.noMunicipio == own && c.coMunicipio == ownCode)
      && (LoadCursos(Some(raw), ies, year).Loaded? && InScope(c) ==> c in LoadCursos(Some(raw), ies, year).table.rows)
  {
    var t := Geo.Inferred(raw);
    var cs := AllCourses(t, AreaColumn(t), ies, year);
    var c := MakeCourse(t, i, AreaColumn(t), ies, year);
    assert c == cs[i];
    assert multiset(cs)[c] > 0;
  }

  /** `int(p.split('_')[-1].split('.')[0])`: the year token of a course file name. */
  function YearOfPath(p: string): Option<int>
  {
    ParseInt(BeforeFirst(AfterLast(p, '_'), '.'))
  }

  const CURSOS_PREFIX := "MICRODADOS_CADASTRO_CURSOS_"

  /** The file name `MICRODADOS_CADASTRO_CURSOS_<year>.CSV` yields its year. */
  lemma YearOfCursosFile(y: nat)
    ensures YearOfPath(CURSOS_PREFIX + NatText(y) + ".CSV") == Some(y)
  {
    var d := NatText(y);
    assert '_' !in d + ".CSV" by {
      assert forall k :: 0 <= k < |d| ==> IsDigit(d[k]);
    }
    assert '.' !in d by {
      assert forall k :: 0 <= k < |d| ==> IsDigit(d[k]);
    }
    assert CURSOS_PREFIX + d + ".CSV" == CURSOS_PREFIX + (d + ".CSV");
    AfterLastAppend(CURSOS_PREFIX, d + ".CSV", '_');
    assert AfterLast(CURSOS_PREFIX, '_') == [];
    assert [] + (d + ".CSV") == d + ".CSV";
    BeforeFirstAppend(d, ".CSV", '.');
    assert BeforeFirst(".CSV", '.') == [];
    assert d + [] == d;
    IntTextRoundTrip(y);
  }

  /** The values of a list of optional integers, when all are present. */
  function AllPresent(xs: seq<Option<int>>): (r: Option<seq<int>>)
    ensures r.Some? ==> |r.value| == |xs| && forall k :: 0 <= k < |xs| ==> xs[k] == Some(r.value[k])
    ensures r.None? <==> exists k :: 0 <= k < |xs| && xs[k].None?
  {
    if xs == [] then Some([])
    else
      var init := xs[..|xs| - 1];
      var rest := AllPresent(init);
      var x := xs[|xs| - 1];
      assert forall k :: 0 <= k < |init| ==> init[k] == xs[k];
      if x.None? || rest.None? then None
      else Some(rest.value + [x.value])
  }

  /** The year tokens of all file names; `None` when one of them is not an integer (the
      comprehension raises). */
  function ParseYears(paths: seq<string>): (r: Option<seq<int>>)
    ensures r.Some? ==> |r.value| == |paths|
    ensures r.Some? ==> forall k :: 0 <= k < |paths| ==> YearOfPath(paths[k]) == Some(r.value[k])
    ensures r.None? <==> exists k :: 0 <= k < |paths| && YearOfPath(paths[k]).None?
  {
    var toks := seq(|paths|, k requires 0 <= k < |paths| => YearOfPath(paths[k]));
    AllPresent(toks)
  }

  /** `anos = sorted([...])`: the years of the course files, in ascending order. */
  function Anos(paths: seq<string>): (r: Option<seq<int>>)
    ensures r.Some? ==> Sorted(r.value)
    ensures r.Some? <==> ParseYears(paths).Some?
    ensures r.Some? ==> multiset(r.value) == multiset(ParseYears(paths).value)
  {
    match ParseYears(paths)
    case None => None
    case Some(ys) => Some(Sort(ys))
  }

  /** The contents of a year's course file (`None`: missing or unreadable). */
  function FileOf(files: map<int, Table>, y: int): Option<Table>
  {
    if y in files then Some(files[y]) else None
  }

  /** A year's institution table (empty when neither institution file loads). */
  function IesFor(ies: map<int, IesMap>, y: int): IesMap
  {
    if y in ies then ies[y] else map[]
  }

  /** `load_cursos(ano)` with the year's course file and institution table. */
  function LoadOf(files: map<int, Table>, ies: map<int, IesMap>, y: int): Load
  {
    LoadCursos(FileOf(files, y), IesFor(ies, y), y)
  }

  /** The load of each entry of `anos`, in order. */
  function LoadsOf(anos: seq<int>, files: map<int, Table>, ies: map<int, IesMap>): (ls: seq<Load>)
    ensures |ls| == |anos|
    ensures forall k :: 0 <= k < |anos| ==> ls[k] == LoadOf(files, ies, anos[k])
  {
    seq(|anos|, k requires 0 <= k < |anos| => LoadOf(files, ies, anos[k]))
  }

  /** `not dfa.empty`: the year loaded and kept at least one row. */
  predicate Kept(l: Load)
  {
    l.Loaded? && |l.table.rows| > 0
  }

  /** The rows a year contributes to `lista_dfs`: none when it is skipped. */
  function KeptRows(l: Load): seq<Course>
  {
    if Kept(l) then l.table.rows else []
  }

  /** `if not dfa.empty: lista_dfs.append(dfa)` over a list of loads. */
  function KeepNonEmpty(ls: seq<Load>): (r: seq<YearTable>)
    ensures |r| <= |ls|
  {
    if ls == [] then []
    else
      var prev := KeepNonEmpty(ls[..|ls| - 1]);
      var l := ls[|ls| - 1];
      if Kept(l) then prev + [l.table] else prev
  }

  /** `lista_dfs` after the loop over `anos`: the loaded years with at least one row, in order. */
  function NonEmptyLoads(anos: seq<int>, files: map<int, Table>, ies: map<int, IesMap>): (r: seq<YearTable>)
    ensures |r| <= |anos|
  {
    KeepNonEmpty(LoadsOf(anos, files, ies))
  }

  /** One more entry of `anos`: its load is appended when it has rows. */
  lemma NonEmptyLoadsSnoc(anos: seq<int>, y: int, files: map<int, Table>, ies: map<int, IesMap>)
    ensures var l := LoadOf(files, ies, y);
      NonEmptyLoads(anos + [y], files, ies)
        == NonEmptyLoads(anos, files, ies) + (if Kept(l) then [l.table] else [])
  {
    var ls := LoadsOf(anos, files, ies);
    var ls' := LoadsOf(anos + [y], files, ies);
    assert ls' == ls + [LoadOf(files, ies, y)];
    assert ls'[..|ls|] == ls;
  }

  /** The year loop (`for ano in anos: ... lista_dfs.append(dfa)`). */
  method CollectYears(anos: seq<int>, files: map<int, Table>, ies: map<int, IesMap>)
    returns (lista: seq<YearTable>)
    ensures lista == NonEmptyLoads(anos, files, ies)
  {
    lista := [];
    for k := 0 to |anos|
      invariant lista == NonEmptyLoads(anos[..k], files, ies)
    {
      var ano := anos[k];
      var dfa := LoadCursos(FileOf(files, ano), IesFor(ies, ano), ano);
      NonEmptyLoadsSnoc(anos[..k], ano, files, ies);
      assert anos[..k + 1] == anos[..k] + [ano];
      if dfa.Loaded? && |dfa.table.rows| > 0 {
        lista := lista + [dfa.table];
      }
    }
    assert anos[..|anos|] == anos;
  }

  /**
   * Filtering loses no load (so a year that fails or is empty drops only itself): every
   * non-empty load has its table in the result, and every table of the result is a
   * non-empty load of the list.
   */
  lemma {:induction false} KeepNonEmptyExact(ls: seq<Load>)
    ensures forall k :: 0 <= k < |ls| && Kept(ls[k]) ==> ls[k].table in KeepNonEmpty(ls)
    ensures forall t :: t in KeepNonEmpty(ls) ==> exists k :: 0 <= k < |ls| && Kept(ls[k]) && ls[k].table == t
  {
    if ls != [] {
      var n := |ls| - 1;
      var init := ls[..n];
      KeepNonEmptyExact(init);
      var prev := KeepNonEmpty(init);
      assert forall k :: 0 <= k < n ==> init[k] == ls[k];
      forall t | t in KeepNonEmpty(ls) ensures exists k :: 0 <= k < |ls| && Kept(ls[k]) && ls[k].table == t {
        if t in prev {
          var k :| 0 <= k < n && Kept(init[k]) && init[k].table == t;
          assert ls[k] == init[k];
        } else {
          assert Kept(ls[n]) && ls[n].table == t;
        }
      }
    }
  }

  /** When every load has rows (every year loads with rows), the filter keeps one table
      per load, in order. */
  lemma {:induction false} KeepAll(ls: seq<Load>)
    requires forall k :: 0 <= k < |ls| ==> Kept(ls[k])
    ensures |KeepNonEmpty(ls)| == |ls|
    ensures forall k :: 0 <= k < |ls| ==> ls[k].Loaded? && KeepNonEmpty(ls)[k] == ls[k].table
  {
    if ls != [] {
      var n := |ls| - 1;
      var init := ls[..n];
      assert forall k :: 0 <= k < n ==> init[k] == ls[k];
      KeepAll(init);
      assert Kept(ls[n]);
    }
  }

  /** Every table has rows, all of one year of `anos`, all in scope. */
  predicate GoodYears(lista: seq<YearTable>, anos: seq<int>)
  {
    forall k :: 0 <= k < |lista| ==>
      |lista[k].rows| > 0 && lista[k].rows[0].year in anos &&
      forall c :: c in lista[k].rows ==> InScope(c) && c.year == lista[k].rows[0].year
  }

  /** Every gathered year has rows, comes from `anos`, and holds only in-scope rows of that
      year; there is at most one table per entry of `anos`. */
  lemma NonEmptyLoadsFacts(anos: seq<int>, files: map<int, Table>, ies: map<int, IesMap>)
    ensures |NonEmptyLoads(anos, files, ies)| <= |anos|
    ensures GoodYears(NonEmptyLoads(anos, files, ies), anos)
  {
    var ls := LoadsOf(anos, files, ies);
    var lista := NonEmptyLoads(anos, files, ies);
    KeepNonEmptyExact(ls);
    forall i | 0 <= i < |lista|
      ensures |lista[i].rows| > 0 && lista[i].rows[0].year in anos
      ensures forall c :: c in lista[i].rows ==> InScope(c) && c.year == lista[i].rows[0].year
    {
      assert lista[i] in lista;
      var k :| 0 <= k < |anos| && Kept(ls[k]) && ls[k].table == lista[i];
      assert lista[i].rows[0] in lista[i].rows;
    }
  }

  /** The concatenation of the gathered years. */
  datatype Dataset = Dataset(hasCine: bool, hasIng: bool, hasConc: bool, rows: seq<Course>)

  function Flatten(lista: seq<YearTable>): (rows: seq<Course>)
    ensures forall c :: c in rows <==> exists k :: 0 <= k < |lista| && c in lista[k].rows
  {
    if lista == [] then []
    else
      var rest := Flatten(lista[1..]);
      assert forall k :: 1 <= k < |lista| ==> lista[k] == lista[1..][k - 1];
      assert forall c :: c in rest ==> exists k :: 1 <= k < |lista| && c in lista[k].rows by {
        forall c | c in rest ensures exists k :: 1 <= k < |lista| && c in lista[k].rows {
          var k :| 0 <= k < |lista[1..]| && c in lista[1..][k].rows;
          assert c in lista[k + 1].rows;
        }
      }
      lista[0].rows + rest
  }

  /** Concatenating two lists of tables concatenates their rows. */
  lemma {:induction false} FlattenAppend(a: seq<YearTable>, b: seq<YearTable>)
    ensures Flatten(a + b) == Flatten(a) + Flatten(b)
    decreases |a|
  {
    if a == [] {
      assert a + b == b;
    } else {
      assert (a + b)[0] == a[0];
      assert (a + b)[1..] == a[1..] + b;
      FlattenAppend(a[1..], b);
    }
  }

  /** The rows of a single table are that table's rows. */
  lemma FlattenOne(t: YearTable)
    ensures Flatten([t]) == t.rows
  {
    assert [t][1..] == [];
  }

  /** The gathered rows grow year by year: one more entry of `anos` appends exactly the rows
      of its load when it is kept, and nothing otherwise. */
  lemma GatheredRowsSnoc(anos: seq<int>, y: int, files: map<int, Table>, ies: map<int, IesMap>)
    ensures Flatten(NonEmptyLoads(anos + [y], files, ies))
         == Flatten(NonEmptyLoads(anos, files, ies)) + KeptRows(LoadOf(files, ies, y))
  {
    var l := LoadOf(files, ies, y);
    var prev := NonEmptyLoads(anos, files, ies);
    NonEmptyLoadsSnoc(anos, y, files, ies);
    if Kept(l) {
      FlattenAppend(prev, [l.table]);
      FlattenOne(l.table);
    } else {
      assert prev + [] == prev;
      assert Flatten(prev) + [] == Flatten(prev);
    }
  }

  /**
   * `pd.concat(lista_dfs)`: the columns are the union of the years' columns and the rows
   * follow one another; with no year at all pandas raises (`None`). CO_CINE_AREA_GERAL is a
   * required column of every loaded year, so the concatenation always has it.
   */
  function Concat(lista: seq<YearTable>): (d: Option<Dataset>)
    ensures d.None? <==> lista == []
    ensures d.Some? ==> d.value.hasCine
    ensures d.Some? ==> (d.value.hasIng <==> exists k :: 0 <= k < |lista| && lista[k].hasIng)
    ensures d.Some? ==> (d.value.hasConc <==> exists k :: 0 <= k < |lista| && lista[k].hasConc)
    ensures d.Some? ==> forall c :: c in d.value.rows <==> exists k :: 0 <= k < |lista| && c in lista[k].rows
    ensures d.Some? ==> d.value.rows == Flatten(lista)
  {
    if lista == [] then None
    else
      Some(Dataset(true,
        exists k :: 0 <= k < |lista| && lista[k].hasIng,
        exists k :: 0 <= k < |lista| && lista[k].hasConc,
        Flatten(lista)))
  }

  /** `df_geral`: every row of the concatenated frame is a Nordeste or Sudeste row of one of the discovered years. */
  lemma GatheredRowsInScope(anos: seq<int>, files: map<int, Table>, ies: map<int, IesMap>)
    requires Concat(NonEmptyLoads(anos, files, ies)).Some?
    ensures forall c :: c in Concat(NonEmptyLoads(anos, files, ies)).value.rows ==> InScope(c) && c.year in anos
  {
    var lista := NonEmptyLoads(anos, files, ies);
    NonEmptyLoadsFacts(anos, files, ies);
    forall c | c in Concat(lista).value.rows ensures InScope(c) && c.year in anos {
      var k :| 0 <= k < |lista| && c in lista[k].rows;
    }
  }
}
