/** The postal-code to neighbourhood lookup of the web client
    (web/src/lib/cep-bairro.ts): a table of CEP ranges of Palmital, searched
    in table order, the first range containing the code winning. */
module CepBairro {

  import opened Common
  import opened Text
  import opened Sorting

  datatype CepRange = CepRange(bairro: string, cepInicio: int, cepFim: int)
  {
    predicate Covers(n: int)
    {
      cepInicio <= n <= cepFim
    }
  }

  const DEFAULT_BAIRRO: string := "Bairro não identificado"

  const CEP_RANGES: seq<CepRange> := [
    CepRange("Área Rural de Palmital", 19978899, 19978899),
    CepRange("Área Rural de Sussui", 19979899, 19979899),
    CepRange("Centro", 19970050, 19970970),
    CepRange("Centro (Sussui)", 19979000, 19979016),
    CepRange("Conj. Hab. Albino Rainho", 19971200, 19971218),
    CepRange("Conj. Hab. Miguel Huertas", 19971000, 19971022),
    CepRange("Conj. Hab. Padre Inocente Osés", 19971030, 19971036),
    CepRange("Distrito Industrial Basílio", 19973610, 19973618),
    CepRange("Distrito Industrial III", 19977200, 19977210),
    CepRange("Golden Park", 19973620, 19973630),
    CepRange("Jardim Avenida", 19970001, 19970005),
    CepRange("Jardim Bela Vista", 19973170, 19973190),
    CepRange("Jardim das Flores", 19970120, 19970146),
    CepRange("Jardim das Oliveiras", 19970350, 19970354),
    CepRange("Jardim Montreal", 19973710, 19973734),
    CepRange("Jardim Novo Mundo", 19970360, 19970374),
    CepRange("Jardim Olímpico", 19971220, 19971232),
    CepRange("Jardim Paulista", 19971130, 19971140),
    CepRange("Jardim Residencial Holmo", 19970300, 19970308),
    CepRange("Jardim Santa Lucia", 19973650, 19973654),
    CepRange("Paraná", 19973120, 19973160),
    CepRange("Parque dos Antúrios", 19973230, 19973240),
    CepRange("Parque Independência", 19970330, 19970340),
    CepRange("Parque São Jorge", 19973000, 19973010),
    CepRange("Residencial Afonso Negrão", 19971110, 19971128),
    CepRange("Residencial Arboris Palmital", 19970380, 19970392),
    CepRange("Residencial Fenix I", 19973510, 19973518),
    CepRange("Residencial Fênix II", 19973520, 19973528),
    CepRange("Residencial Imperial", 19973250, 19973258),
    CepRange("São José", 19971060, 19971068),
    CepRange("Toninho Costa", 19973640, 19973640),
    CepRange("Vila Albino", 19973530, 19973536),
    CepRange("Vila América", 19971040, 19971052),
    CepRange("Vila Mazzeto", 19973100, 19973110),
    CepRange("Vila Nova Zanete", 19971090, 19971106),
    CepRange("Vila Santa Terezinha", 19971070, 19971088),
    CepRange("Vila Volga", 19970310, 19970324),
    CepRange("Vila Wady Zugaiar", 19973200, 19973228)]

  /** Position of Centro in the table. */
  const CENTRO: nat := 2

  /** Positions of the ranges that lie inside Centro's range and after it. */
  const SHADOWED: seq<nat> := [12, 13, 15, 18, 22, 25, 36]

  /** `normalizeCep`: `parseInt` of the digits of `cep`; no digits is NaN. */
  function NormalizeCep(cep: string): (r: Option<nat>)
    ensures r.None? <==> forall i :: 0 <= i < |cep| ==> !IsDigit(cep[i])
    ensures r.Some? ==> r.value == DecimalValue(Digits(cep))
  {
    if |Digits(cep)| == 0 then
      NoDigitsHasNone(cep);
      None
    else
      DigitsNonEmpty(cep);
      Some(DecimalValue(Digits(cep)))
  }

  lemma {:induction false} NoDigitsHasNone(s: string)
    requires |Digits(s)| == 0
    ensures forall i :: 0 <= i < |s| ==> !IsDigit(s[i])
    decreases |s|
  {
    if |s| > 0 {
      NoDigitsHasNone(s[1..]);
    }
  }

  lemma {:induction false} DigitsNonEmpty(s: string)
    requires |Digits(s)| > 0
    ensures exists i :: 0 <= i < |s| && IsDigit(s[i])
    decreases |s|
  {
    if !IsDigit(s[0]) {
      DigitsNonEmpty(s[1..]);
      var i :| 0 <= i < |s[1..]| && IsDigit(s[1..][i]);
      assert IsDigit(s[i + 1]);
    }
  }

  /** Writing a number in decimal and normalising gives the number back. */
  lemma NormalizeDecimal(n: nat)
    ensures NormalizeCep(ToDecimal(n)) == Some(n)
  {
  }

  /** Separators between the digits are ignored: `"19970-100"` and
      `"19970100"` denote the same code. */
  lemma NormalizeIgnoresSeparators(a: string, sep: string, b: string)
    requires forall i :: 0 <= i < |sep| ==> !IsDigit(sep[i])
    ensures NormalizeCep(a + sep + b) == NormalizeCep(a + b)
  {
    DigitsAppend(a + sep, b);
    DigitsAppend(a, sep);
    DigitsAppend(a, b);
    DigitsOfNonDigits(sep);
    assert Digits(a + sep) == Digits(a);
    assert Digits(a + sep + b) == Digits(a + b);
    if |Digits(a + b)| > 0 {
      DigitsNonEmpty(a + sep + b);
      DigitsNonEmpty(a + b);
    } else {
      NoDigitsHasNone(a + sep + b);
      NoDigitsHasNone(a + b);
    }
  }

  /** Position of the first range covering `n`. */
  function LookupIndex(n: int): (r: Option<nat>)
    ensures r.Some? ==> r.value < |CEP_RANGES| && CEP_RANGES[r.value].Covers(n)
    ensures r.Some? ==> forall j :: 0 <= j < r.value ==> !CEP_RANGES[j].Covers(n)
    ensures r.None? <==> forall j :: 0 <= j < |CEP_RANGES| ==> !CEP_RANGES[j].Covers(n)
  {
    FindIndex(CEP_RANGES, (range: CepRange) => range.Covers(n))
  }

  /** `getBairroByCep`: missing, empty or digit-free codes and codes no range
      covers give the default name; otherwise the first covering range wins. */
  function GetBairroByCep(cep: Option<string>): (r: string)
    ensures cep.None? || NormalizeCep(cep.value).None? ==> r == DEFAULT_BAIRRO
    ensures cep.Some? && NormalizeCep(cep.value).Some? ==>
      var n := NormalizeCep(cep.value).value;
      || (exists i :: FirstCovering(n, i) && r == CEP_RANGES[i].bairro)
      || ((forall j :: 0 <= j < |CEP_RANGES| ==> !CEP_RANGES[j].Covers(n)) && r == DEFAULT_BAIRRO)
  {
    if cep.None? || cep.value == "" then DEFAULT_BAIRRO
    else
      match NormalizeCep(cep.value)
      case None => DEFAULT_BAIRRO
      case Some(n) =>
        match LookupIndex(n)
        case None => DEFAULT_BAIRRO
        case Some(i) =>
          assert FirstCovering(n, i);
          CEP_RANGES[i].bairro
  }

  ghost predicate FirstCovering(n: int, i: int)
  {
    && 0 <= i < |CEP_RANGES| && CEP_RANGES[i].Covers(n)
    && forall j :: 0 <= j < i ==> !CEP_RANGES[j].Covers(n)
  }

  /** The first covering range is unique, so the lookup is determined by the
      table order alone. */
  lemma FirstCoveringUnique(n: int, i: int, k: int)
    requires FirstCovering(n, i) && FirstCovering(n, k)
    ensures i == k
  {
  }

  /** Every range listed in `SHADOWED` lies inside Centro's range. */
  lemma ShadowedInsideCentro(s: nat)
    requires s < |SHADOWED|
    ensures CENTRO < SHADOWED[s] < |CEP_RANGES|
    ensures CEP_RANGES[CENTRO].cepInicio <= CEP_RANGES[SHADOWED[s]].cepInicio
    ensures CEP_RANGES[SHADOWED[s]].cepFim <= CEP_RANGES[CENTRO].cepFim
  {
    var centro := CEP_RANGES[CENTRO];
    assert centro == CepRange("Centro", 19970050, 19970970);
    var k := SHADOWED[s];
    assert k in {12, 13, 15, 18, 22, 25, 36};
    var r := CEP_RANGES[k];
    if k == 12 {
      assert r.cepInicio == 19970120 && r.cepFim == 19970146;
    } else if k == 13 {
      assert r.cepInicio == 19970350 && r.cepFim == 19970354;
    } else if k == 15 {
      assert r.cepInicio == 19970360 && r.cepFim == 19970374;
    } else if k == 18 {
      assert r.cepInicio == 19970300 && r.cepFim == 19970308;
    } else if k == 22 {
      assert r.cepInicio == 19970330 && r.cepFim == 19970340;
    } else if k == 25 {
      assert r.cepInicio == 19970380 && r.cepFim == 19970392;
    } else {
      assert r.cepInicio == 19970310 && r.cepFim == 19970324;
    }
  }

  /** A code inside Centro's range resolves to Centro: the two ranges before
      it are single codes outside it. */
  lemma CentroFirst(n: int)
    requires CEP_RANGES[CENTRO].Covers(n)
    ensures LookupIndex(n) == Some(CENTRO)
  {
    assert !CEP_RANGES[0].Covers(n) && !CEP_RANGES[1].Covers(n);
  }

  /** The ranges inside Centro's are never the answer: their codes resolve to Centro. */
  lemma ShadowedUnreachable(s: nat, n: int)
    requires s < |SHADOWED|
    ensures LookupIndex(n) != Some(SHADOWED[s])
  {
    ShadowedInsideCentro(s);
    if CEP_RANGES[SHADOWED[s]].Covers(n) {
      CentroFirst(n);
    }
  }

  /** Example: 19970130 lies in Jardim das Flores's range but is reported as
      Centro, whatever separators surround its digits (`ExampleCodeValue`
      shows two such spellings). */
  lemma JardimDasFloresIsCentro(cep: string)
    requires NormalizeCep(cep) == Some(19970130)
    ensures GetBairroByCep(Some(cep)) == CEP_RANGES[CENTRO].bairro
  {
    CentroFirst(19970130);
    LookupByCode(cep, 19970130);
  }

  lemma TableNames()
    ensures CEP_RANGES[CENTRO].bairro == "Centro"
    ensures CEP_RANGES[12].bairro == "Jardim das Flores" && CEP_RANGES[12].Covers(19970130)
  {
  }

  /** A non-empty code with digits resolves through the first covering range. */
  lemma LookupByCode(cep: string, n: nat)
    requires NormalizeCep(cep) == Some(n)
    ensures GetBairroByCep(Some(cep)) == match LookupIndex(n)
      case None => DEFAULT_BAIRRO
      case Some(i) => CEP_RANGES[i].bairro
  {
  }

  lemma ExampleCodeValue()
    ensures NormalizeCep("19970130") == Some(19970130)
    ensures NormalizeCep("19970-130") == Some(19970130)
  {
    ExampleDigits();
    assert NormalizeCep("19970130") == Some(19970130);
    NormalizeIgnoresSeparators("19970", "-", "130");
    assert "19970" + "-" + "130" == "19970-130";
    assert "19970" + "130" == "19970130";
  }

  lemma ExampleDigits()
    ensures Digits("19970130") == "19970130"
    ensures DecimalValue("19970130") == 19970130
  {
    assert AllDigits("19970130");
    ExampleDigitsLow();
  }

  lemma ExampleDigitsLow()
    ensures DecimalValue("19970130") == 19970130
  {
    ExampleDigitsHigh();
    assert DecimalValue("19970") == 19970 by { assert "19970"[..4] == "1997"; }
    assert DecimalValue("199701") == 199701 by { assert "199701"[..5] == "19970"; }
    assert DecimalValue("1997013") == 1997013 by { assert "1997013"[..6] == "199701"; }
    assert "19970130"[..7] == "1997013";
  }

  lemma ExampleDigitsHigh()
    ensures DecimalValue("1997") == 1997
  {
    assert DecimalValue("1") == 1 by { assert "1"[..0] == ""; }
    assert DecimalValue("19") == 19 by { assert "19"[..1] == "1"; }
    assert DecimalValue("199") == 199 by { assert "199"[..2] == "19"; }
    assert "1997"[..3] == "199";
  }

  /** The table's names, in table order. */
  function Names(): (r: seq<string>)
    ensures |r| == |CEP_RANGES|
    ensures forall i :: 0 <= i < |r| ==> r[i] == CEP_RANGES[i].bairro
  {
    seq(|CEP_RANGES|, i requires 0 <= i < |CEP_RANGES| => CEP_RANGES[i].bairro)
  }

  /** `getAllBairros`: the names sorted with `localeCompare(…, "pt-BR")`,
      here an abstract comparison `collate` (`collate(a, b)` is
      `a.localeCompare(b, "pt-BR") <= 0`). */
  function GetAllBairros(collate: (string, string) -> bool): (r: seq<string>)
    ensures |r| == |CEP_RANGES|
    ensures multiset(r) == multiset(Names())
    ensures TotalPreorder(collate) ==> SortedBy(r, collate)
  {
    SortBy(Names(), collate)
  }

  /** Every name the lookup reports, other than the default, is listed by
      `getAllBairros`. */
  lemma LookupListed(cep: Option<string>, collate: (string, string) -> bool)
    requires GetBairroByCep(cep) != DEFAULT_BAIRRO
    ensures GetBairroByCep(cep) in GetAllBairros(collate)
  {
    var n := NormalizeCep(cep.value).value;
    var i :| FirstCovering(n, i) && GetBairroByCep(cep) == CEP_RANGES[i].bairro;
    var names := Names();
    assert names[i] in multiset(names);
    assert names[i] in multiset(GetAllBairros(collate));
  }
}
