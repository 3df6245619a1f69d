/** `RelatorioService.GerarRelatorioAlunosPDF` reduced to what it writes into
    the student table of the PDF: the seven column titles, seven cell texts
    per student, or one placeholder cell spanning the whole row when there
    is no student. Layout, fonts and the page footer are not modelled. */
module RelatorioService {
  import opened Wrappers
  import opened Text
  import opened Numbers
  import opened Dates
  import opened Alunos
  import Validations

  /** The placeholder of a missing value (an em dash). */
  const Traco: string := "\U{2014}"

  /** The column titles, in order. */
  const Cabecalho: seq<string> := ["Matrícula", "Nome", "CPF", "Nascimento", "Sexo", "Cidade", "UF"]

  /** The text of the cell shown when the list is empty. */
  const SemAlunos: string := "Nenhum aluno encontrado para os filtros aplicados."

  /** `FormatarCpf`: eleven characters shown as `XXX.XXX.XXX-XX`; null, blank
      or any other length shows the dash. The characters are not checked. */
  function FormatarCpf(cpf: Option<string>): (r: string)
    ensures IsNullOrWhiteSpace(cpf) || |cpf.value| != 11 ==> r == Traco
    ensures !IsNullOrWhiteSpace(cpf) && |cpf.value| == 11 ==>
      |r| == 14 && r[3] == '.' && r[7] == '.' && r[11] == '-' &&
      r[..3] + r[4..7] + r[8..11] + r[12..] == cpf.value
  {
    if IsNullOrWhiteSpace(cpf) || |cpf.value| != 11 then Traco
    else
      var s := cpf.value;
      var r := s[0..3] + "." + s[3..6] + "." + s[6..9] + "-" + s[9..11];
      assert r[..3] + r[4..7] + r[8..11] + r[12..] == s[0..3] + s[3..6] + s[6..9] + s[9..11];
      assert s == s[0..3] + s[3..6] + s[6..9] + s[9..11];
      r
  }

  /** The digits of a one-character separator. */
  lemma SeparatorHasNoDigits(c: char)
    requires !IsDigit(c)
    ensures Validations.DigitsOnly([c]) == ""
  {
    assert [c][1..] == [];
  }

  /** Appending a piece adds that piece's digits. */
  lemma DigitsStep(p: string, q: string, acc: string)
    requires Validations.DigitsOnly(p) == acc
    ensures Validations.DigitsOnly(p + q) == acc + Validations.DigitsOnly(q)
  {
    Validations.DigitsConcat(p, q);
  }

  /** The formatted text is the four groups with separators between them. */
  lemma FormatarCpfPieces(d: string)
    requires |d| == 11 && AllDigits(d)
    ensures FormatarCpf(Some(d)) == d[0..3] + "." + d[3..6] + "." + d[6..9] + "-" + d[9..11]
  {
    assert !IsWhiteSpace(d[0]);
  }

  /** Four digit groups joined by separators keep exactly their digits. */
  lemma GroupsKeepDigits(a: string, b: string, c: string, e: string)
    requires AllDigits(a) && AllDigits(b) && AllDigits(c) && AllDigits(e)
    ensures Validations.DigitsOnly(a + "." + b + "." + c + "-" + e) == a + b + c + e
  {
    SeparatorHasNoDigits('.');
    SeparatorHasNoDigits('-');
    Validations.DigitsOnlyOfDigits(a);
    Validations.DigitsOnlyOfDigits(b);
    Validations.DigitsOnlyOfDigits(c);
    Validations.DigitsOnlyOfDigits(e);
    var p1 := a + ".";
    DigitsStep(a, ".", a);
    var p2 := p1 + b;
    DigitsStep(p1, b, a);
    var p3 := p2 + ".";
    DigitsStep(p2, ".", a + b);
    var p4 := p3 + c;
    DigitsStep(p3, c, a + b);
    var p5 := p4 + "-";
    DigitsStep(p4, "-", a + b + c);
    DigitsStep(p5, e, a + b + c);
  }

  /** Formatting eleven digits keeps exactly those digits, so the validator
      judges the formatted text as it judges the digits. */
  lemma FormatarCpfKeepsDigits(d: string)
    requires |d| == 11 && AllDigits(d)
    ensures Validations.DigitsOnly(FormatarCpf(Some(d))) == d
    ensures Validations.ValidarCPF(Some(FormatarCpf(Some(d)))) == Validations.ValidarCPF(Some(d))
  {
    var a, b, c, e := d[0..3], d[3..6], d[6..9], d[9..11];
    GroupsKeepDigits(a, b, c, e);
    assert a + b + c + e == d;
    FormatarCpfPieces(d);
    Validations.ValidarCPFIgnoresNonDigits(FormatarCpf(Some(d)));
  }

  /** The birth-date cell: the dash for `default`, else `dd/MM/yyyy`. */
  function NascimentoTexto(d: DateTime): (r: string)
    ensures IsDefault(d) ==> r == Traco
    ensures !IsDefault(d) && InPatternRange(d) ==>
      |r| == 10 && r[2] == '/' && r[5] == '/' && AllDigits(r[..2]) && AllDigits(r[3..5]) && AllDigits(r[6..]) &&
      ParseDigits(r[..2]) == d.day && ParseDigits(r[3..5]) == d.month && ParseDigits(r[6..]) == d.year
  {
    if IsDefault(d) then Traco else BrDate(d)
  }

  /** The seven cell texts of one student, in column order. A null name,
      city name or UF shows the dash; an empty one stays empty. */
  function Celulas(a: Aluno): (cs: seq<string>)
    ensures |cs| == |Cabecalho|
  {
    [DecimalText(a.matricula), a.nome.GetOr(Traco), FormatarCpf(a.cpf), NascimentoTexto(a.nascimento),
     SexoLabel(a.sexo), a.cidadeNome.GetOr(Traco), a.uf.GetOr(Traco)]
  }

  /** The name, city and UF cells show the stored value, or the dash
      exactly when it is null. */
  lemma CelulasTexto(a: Aluno)
    ensures a.nome.Some? ==> Celulas(a)[1] == a.nome.value
    ensures a.nome.None? ==> Celulas(a)[1] == Traco
    ensures a.cidadeNome.Some? ==> Celulas(a)[5] == a.cidadeNome.value
    ensures a.cidadeNome.None? ==> Celulas(a)[5] == Traco
    ensures a.uf.Some? ==> Celulas(a)[6] == a.uf.value
    ensures a.uf.None? ==> Celulas(a)[6] == Traco
  {
  }

  /** The key and the sex cells read back as the student's, and an 11-digit
      CPF cell keeps the CPF's digits. */
  lemma CelulasIdentify(a: Aluno)
    requires IsInt32(a.matricula)
    ensures TryParseInt32(Celulas(a)[0]) == Some(a.matricula)
    ensures TryParseSexo(Celulas(a)[4]) == Some(a.sexo)
    ensures a.cpf.Some? && |a.cpf.value| == 11 && AllDigits(a.cpf.value) ==>
      Validations.DigitsOnly(Celulas(a)[2]) == a.cpf.value
  {
    var cs := Celulas(a);
    assert cs[0] == DecimalText(a.matricula) && cs[4] == SexoLabel(a.sexo) && cs[2] == FormatarCpf(a.cpf);
    TryParseDecimalText(a.matricula);
    TryParseSexoRoundTrip(a.sexo, SexoLabel(a.sexo));
    if a.cpf.Some? && |a.cpf.value| == 11 && AllDigits(a.cpf.value) {
      FormatarCpfKeepsDigits(a.cpf.value);
    }
  }

  /** One table cell: its text and how many columns it spans. */
  datatype Celula = Celula(texto: string, colunas: nat)

  /** The student table: header titles and body cells in the order added;
      the table has seven columns, so each seven spanned columns form a row. */
  datatype Tabela = Tabela(cabecalho: seq<string>, celulas: seq<Celula>)

  /** Total number of columns the cells span. */
  function Colunas(cs: seq<Celula>): nat {
    if |cs| == 0 then 0 else Colunas(cs[..|cs| - 1]) + cs[|cs| - 1].colunas
  }

  /** The spans of two runs of cells add up. */
  lemma {:induction false} ColunasAppend(cs: seq<Celula>, ds: seq<Celula>)
    ensures Colunas(cs + ds) == Colunas(cs) + Colunas(ds)
    decreases |ds|
  {
    if |ds| > 0 {
      var e := cs + ds;
      assert e[..|e| - 1] == cs + ds[..|ds| - 1];
      ColunasAppend(cs, ds[..|ds| - 1]);
    } else {
      assert cs + ds == cs;
    }
  }

  /** The seven one-column cells of one student. */
  function Linha(a: Aluno): (r: seq<Celula>)
    ensures |r| == 7
    ensures forall j | 0 <= j < 7 :: r[j] == Celula(Celulas(a)[j], 1)
    ensures Colunas(r) == 7
  {
    var cs := Celulas(a);
    var r := [Celula(cs[0], 1), Celula(cs[1], 1), Celula(cs[2], 1), Celula(cs[3], 1),
      Celula(cs[4], 1), Celula(cs[5], 1), Celula(cs[6], 1)];
    ColunasUnit(r);
    r
  }

  /** Cells spanning one column each span as many columns as there are. */
  lemma {:induction false} ColunasUnit(cs: seq<Celula>)
    requires forall j | 0 <= j < |cs| :: cs[j].colunas == 1
    ensures Colunas(cs) == |cs|
    decreases |cs|
  {
    if |cs| > 0 {
      ColunasUnit(cs[..|cs| - 1]);
    }
  }

  /** The body cells of a non-empty list: each student's row in turn. */
  function Corpo(lista: seq<Aluno>): (r: seq<Celula>)
    ensures |r| == 7 * |lista|
    ensures Colunas(r) == 7 * |lista|
  {
    if |lista| == 0 then []
    else
      var r := Corpo(lista[..|lista| - 1]) + Linha(lista[|lista| - 1]);
      ColunasAppend(Corpo(lista[..|lista| - 1]), Linha(lista[|lista| - 1]));
      r
  }

  /** Cell `7k + j` of the body is column `j` of student `k`. */
  lemma {:induction false} CorpoCelula(lista: seq<Aluno>, k: int, j: int)
    requires 0 <= k < |lista| && 0 <= j < 7
    ensures Corpo(lista)[7 * k + j] == Celula(Celulas(lista[k])[j], 1)
    decreases |lista|
  {
    var n := |lista| - 1;
    var p := Corpo(lista[..n]);
    var l := Linha(lista[n]);
    assert Corpo(lista) == p + l;
    assert |p| == 7 * n;
    if k < n {
      assert 7 * k + j < |p|;
      assert (p + l)[7 * k + j] == p[7 * k + j];
      CorpoCelula(lista[..n], k, j);
      assert lista[..n][k] == lista[k];
    } else {
      assert 7 * k + j == |p| + j;
      assert (p + l)[|p| + j] == l[j];
    }
  }

  /** `GerarRelatorioAlunosPDF`: the header, then one placeholder cell
      spanning the seven columns when the list is null or empty, else the
      seven cells of each student, student by student. */
  method GerarRelatorioAlunosPDF(alunos: Option<seq<Aluno>>) returns (t: Tabela)
    ensures t.cabecalho == Cabecalho
    ensures alunos.None? || |alunos.value| == 0 ==> t.celulas == [Celula(SemAlunos, 7)]
    ensures alunos.Some? && |alunos.value| > 0 ==> |t.celulas| == 7 * |alunos.value|
    ensures alunos.Some? ==> forall i, j | 0 <= i < |alunos.value| && 0 <= j < 7 ::
      t.celulas[7 * i + j] == Celula(Celulas(alunos.value[i])[j], 1)
    ensures Colunas(t.celulas) == 7 * (if alunos.None? || |alunos.value| == 0 then 1 else |alunos.value|)
  {
    var lista := alunos.GetOr([]);
    if |lista| == 0 {
      assert [Celula(SemAlunos, 7)][..0] == [];
      return Tabela(Cabecalho, [Celula(SemAlunos, 7)]);
    }
    var cs: seq<Celula> := [];
    var i := 0;
    while i < |lista|
      invariant 0 <= i <= |lista|
      invariant cs == Corpo(lista[..i])
    {
      assert lista[..i + 1][..i] == lista[..i];
      cs := cs + Linha(lista[i]);
      i := i + 1;
    }
    assert lista[..i] == lista;
    forall k, j | 0 <= k < |lista| && 0 <= j < 7
      ensures cs[7 * k + j] == Celula(Celulas(lista[k])[j], 1)
    {
      CorpoCelula(lista, k, j);
    }
    t := Tabela(Cabecalho, cs);
  }
}
