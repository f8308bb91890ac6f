/**
 * Classification of course rows: STEM by CINE area code with the keyword rule
 * (`identificar_stem`) as fallback, and public/private by administrative category.
 */
module Classify {
  import opened Wrappers
  import opened Text
  import opened Frames
  import opened Records

  /** `palavras_chave` of `identificar_stem`. */
  const Keywords: seq<string> := [
    "CIÊNCIAS NATURAIS", "MATEMÁTICA", "ESTATÍSTICA",
    "COMPUTAÇÃO", "TIC", "ENGENHARIA", "PRODUÇÃO", "CONSTRUÇÃO"]

  /** The zero-padded CINE general-area codes counted as STEM. */
  const CineStemCodes: seq<string> := ["05", "06", "07"]

  /** `str(x)` / `astype(str)` of a cell; NaN renders as "nan". */
  function CellText(c: Cell): string
  {
    match c
    case Null => "nan"
    case Num(n) => IntText(n)
    case Str(s) => s
  }

  /** `any(p in text for p in ks)`. */
  function AnyKeyword(text: string, ks: seq<string>): (b: bool)
    ensures b <==> exists k :: 0 <= k < |ks| && Contains(text, ks[k])
  {
    if ks == [] then false
    else
      var rest := AnyKeyword(text, ks[1..]);
      assert forall k :: 1 <= k < |ks| ==> ks[k] == ks[1..][k - 1];
      assert rest ==> exists k :: 1 <= k < |ks| && Contains(text, ks[k]) by {
        if rest {
          var k :| 0 <= k < |ks[1..]| && Contains(text, ks[1..][k]);
          assert Contains(text, ks[k + 1]);
        }
      }
      Contains(text, ks[0]) || rest
  }

  /** `identificar_stem(texto)`: a missing name is never STEM; otherwise STEM when one
      of the keywords occurs in the upper-cased name. */
  function IdentificarStem(area: Cell): (b: bool)
    ensures b <==> area != Null && exists k :: 0 <= k < |Keywords| && Contains(Upper(CellText(area)), Keywords[k])
  {
    area != Null && AnyKeyword(Upper(CellText(area)), Keywords)
  }

  /** `astype(str).str.zfill(2).isin(['05', '06', '07'])` on one code cell. */
  predicate CodeIsStem(code: Cell)
  {
    ZFill2(CellText(code)) in CineStemCodes
  }

  /** For an integer code the text rule is exactly membership in {5, 6, 7}. */
  lemma CodeStemIff(n: int)
    ensures CodeIsStem(Num(n)) <==> n == 5 || n == 6 || n == 7
  {
    var s := IntText(n);
    if n < 0 {
      assert s == "-" + NatText(-n) && |s| >= 2 && s[0] == '-';
      assert ZFill2(s) == s;
    } else if n < 10 {
      var d := DigitChar(n);
      assert s == [d];
      assert ZFill2(s) == ['0', d];
      assert ZFill2(s) == "05" <==> d == '5';
      assert ZFill2(s) == "06" <==> d == '6';
      assert ZFill2(s) == "07" <==> d == '7';
      assert DigitValue('5') == 5 && DigitValue('6') == 6 && DigitValue('7') == 7;
    } else {
      NatTextLeadingDigit(n);
      assert |s| >= 2 && ZFill2(s) == s && s[0] != '0';
    }
  }

  /** A code held as text is STEM when it reads "05", "06", "07", or the unpadded "5", "6", "7". */
  lemma TextCodeStemIff(s: string)
    ensures CodeIsStem(Str(s)) <==> s in ["5", "6", "7", "05", "06", "07"]
  {
    if |s| == 1 {
      assert ZFill2(s) == "05" <==> s == "5";
      assert ZFill2(s) == "06" <==> s == "6";
      assert ZFill2(s) == "07" <==> s == "7";
      assert s != "05" && s != "06" && s != "07";
    } else if |s| == 0 {
      assert ZFill2(s) == "00";
    }
  }

  /** `IS_STEM`: with a CO_CINE_AREA_GERAL column, a row with a code is classified by
      the code and a row without one by its area name; without the column, by name. */
  function IsStem(c: Course, cineColumn: bool): bool
  {
    if cineColumn && c.coCine != Null then CodeIsStem(c.coCine) else IdentificarStem(c.area)
  }

  /** The two tiers of the STEM rule, each stated outright. */
  lemma StemRule(c: Course, cineColumn: bool)
    ensures cineColumn && c.coCine.Num? ==>
      (IsStem(c, cineColumn) <==> c.coCine.n == 5 || c.coCine.n == 6 || c.coCine.n == 7)
    ensures (!cineColumn || c.coCine == Null) ==>
      (IsStem(c, cineColumn) <==>
        c.area != Null && exists k :: 0 <= k < |Keywords| && Contains(Upper(CellText(c.area)), Keywords[k]))
    ensures (!cineColumn || c.coCine == Null) && c.area == Null ==> !IsStem(c, cineColumn)
  {
    if cineColumn && c.coCine.Num? {
      CodeStemIff(c.coCine.n);
    }
  }

  /** Institution type of TIPO_IES. */
  datatype Tipo = Publica | Privada

  /** `pd.to_numeric(..., errors='coerce').fillna(9).astype(int)` on one category cell. */
  function CategoryCode(c: Cell): int
  {
    match c
    case Null => 9
    case Num(n) => n
    case Str(s) => NumericTrunc(s).GetOr(9)
  }

  /** `np.where(cat <= 3, 'Pública', 'Privada')`. */
  function TipoIes(c: Cell): Tipo
  {
    if CategoryCode(c) <= 3 then Publica else Privada
  }

  /** Numeric categories up to 3, zero and negative ones included, are public; a missing or
      non-numeric category counts as 9 and is private. */
  lemma TipoRule(n: int, s: string)
    ensures TipoIes(Num(n)) == Publica <==> n <= 3
    ensures TipoIes(Null) == Privada
    ensures NumericTrunc(s).None? ==> TipoIes(Str(s)) == Privada
  {
  }

  /** A category written as text classifies like the number it spells, and a decimal
      category is truncated toward zero first ("3.9" is public, "-0.5" too). */
  lemma TipoOfText(n: int)
    ensures TipoIes(Str(IntText(n))) == TipoIes(Num(n))
    ensures TipoIes(Str("3.9")) == Publica && TipoIes(Str("-0.5")) == Publica && TipoIes(Str("4.0")) == Privada
  {
    NumericTruncOfIntText(n);
    assert IndexOf("3.9", '.') == 1;
    assert "-0.5"[1..] == "0.5" && IndexOf("0.5", '.') == 1;
    assert IndexOf("4.0", '.') == 1;
    assert "3.9"[..1] == "3" && "3.9"[2..] == "9";
    assert "0.5"[..1] == "0" && "0.5"[2..] == "5";
    assert "4.0"[..1] == "4" && "4.0"[2..] == "0";
    assert "3"[..0] == [] && "0"[..0] == [] && "4"[..0] == [];
  }

  /** A row of `df_stem` with its TIPO_IES. */
  datatype StemRow = StemRow(c: Course, tipo: Tipo)

  /** The STEM rows in order, each with its TIPO_IES: every STEM course row appears as often
      as in `rows`, and nothing else does. */
  function StemRows(rows: seq<Course>, cineColumn: bool): (r: seq<StemRow>)
    ensures forall x :: x in r ==> x.c in rows && IsStem(x.c, cineColumn) && x.tipo == TipoIes(x.c.categoria)
    ensures forall c :: c in rows && IsStem(c, cineColumn) ==> StemRow(c, TipoIes(c.categoria)) in r
    ensures forall x :: multiset(r)[x] == if IsStem(x.c, cineColumn) && x.tipo == TipoIes(x.c.categoria) then multiset(rows)[x.c] else 0
    ensures |r| <= |rows|
  {
    if rows == [] then []
    else
      assert rows == [rows[0]] + rows[1..];
      assert forall c :: c in rows ==> c == rows[0] || c in rows[1..];
      (if IsStem(rows[0], cineColumn) then [StemRow(rows[0], TipoIes(rows[0].categoria))] else [])
        + StemRows(rows[1..], cineColumn)
  }

  /** Selecting the STEM rows of two parts one after the other selects those of the whole:
      the order of the rows is kept. */
  lemma {:induction false} StemRowsAppend(a: seq<Course>, b: seq<Course>, cineColumn: bool)
    ensures StemRows(a + b, cineColumn) == StemRows(a, cineColumn) + StemRows(b, cineColumn)
    decreases |a|
  {
    if a == [] {
      assert a + b == b;
    } else {
      assert (a + b)[0] == a[0];
      assert (a + b)[1..] == a[1..] + b;
      StemRowsAppend(a[1..], b, cineColumn);
    }
  }

  /** `df_stem = df_geral[df_geral['IS_STEM']]` with TIPO_IES assigned: exactly the STEM rows,
      each with one institution type. */
  function SelectStem(ds: Dataset): (r: seq<StemRow>)
    ensures forall x :: x in r ==> x.c in ds.rows && IsStem(x.c, ds.hasCine) && x.tipo == TipoIes(x.c.categoria)
    ensures forall c :: c in ds.rows && IsStem(c, ds.hasCine) ==> StemRow(c, TipoIes(c.categoria)) in r
    ensures forall x :: multiset(r)[x] == if IsStem(x.c, ds.hasCine) && x.tipo == TipoIes(x.c.categoria) then multiset(ds.rows)[x.c] else 0
  {
    StemRows(ds.rows, ds.hasCine)
  }

  /** An area name is matched by substring after upper-casing: "Engenharia" is STEM. */
  lemma KeywordExample()
    ensures IdentificarStem(Str("Engenharia"))
  {
    assert Upper("Engenharia") == "ENGENHARIA";
    assert OccursAt(Upper("Engenharia"), Keywords[5], 0);
  }

  /** "Política" is STEM by keyword too: its upper-cased form contains "TIC". */
  lemma KeywordOvermatch()
    ensures IdentificarStem(Str("Política"))
  {
    assert Upper("Política") == "POLÍTICA";
    assert OccursAt(Upper("Política"), Keywords[4], 4);
  }

  /** "Direito" contains none of the keywords. */
  lemma KeywordCounterexample()
    ensures !IdentificarStem(Str("Direito"))
  {
    var u := Upper("Direito");
    assert u == "DIREITO";
    forall k, i: nat | 0 <= k < |Keywords| ensures !OccursAt(u, Keywords[k], i) {
      if k == 4 {
        if i + 3 <= 7 {
          assert u[i..i + 3][0] == u[i];
          assert u[i] != 'T';
        }
      } else {
        assert |Keywords[k]| > 7;
      }
    }
  }
}
