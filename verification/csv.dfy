/** The CSV export of the student report (`AlunoController.GerarCsv` and
    `EscaparCsv`): `;`-separated records whose quoted fields follow rules 6
    and 7 of section 2 of RFC 4180, with `;` in place of the comma. A reader
    for such records is defined alongside, as the inverse the escaping is
    meant to have. */
module RelatorioCsv {
  import opened Wrappers
  import opened Text
  import opened Numbers
  import opened Dates
  import opened Alunos
  import Validations

  /** The characters that make `EscaparCsv` quote a value. A lone carriage
      return is not among them. */
  predicate NeedsQuoting(v: string) {
    ';' in v || '"' in v || '\n' in v
  }

  /** `Replace("\"", "\"\"")`: every quote doubled. */
  function DoubleQuotes(v: string): (r: string)
    ensures '"' !in v ==> r == v
    ensures |r| >= |v|
  {
    if |v| == 0 then ""
    else if v[0] == '"' then "\"\"" + DoubleQuotes(v[1..])
    else
      var r := [v[0]] + DoubleQuotes(v[1..]);
      assert '"' !in v ==> '"' !in v[1..] && r == [v[0]] + v[1..];
      r
  }

  /** `EscaparCsv`: null and "" give ""; a value holding `;`, `"` or a line
      feed is wrapped in quotes with its quotes doubled; any other value is
      returned as it is. */
  function EscaparCsv(valor: Option<string>): (r: string)
    ensures IsNullOrEmpty(valor) ==> r == ""
    ensures valor.Some? && !NeedsQuoting(valor.value) ==> r == valor.value
    ensures valor.Some? && NeedsQuoting(valor.value) ==>
      |r| >= |valor.value| + 2 && r[0] == '"' && r[|r| - 1] == '"' && r[1..|r| - 1] == DoubleQuotes(valor.value)
  {
    if IsNullOrEmpty(valor) then ""
    else
      var v := DoubleQuotes(valor.value);
      if NeedsQuoting(valor.value) then "\"" + v + "\"" else v
  }

  /** What may follow a field inside a record: nothing, or the delimiter. */
  predicate FieldEnd(rest: string) {
    rest == "" || rest[0] == ';'
  }

  /** Reads a quoted field after its opening quote: `""` stands for one
      quote and a lone `"` closes the field. Gives the value and what follows
      the closing quote, or `None` when the field is never closed. */
  function ReadQuoted(s: string): (r: Option<(string, string)>)
    ensures r.Some? ==> |r.value.1| < |s|
  {
    if |s| == 0 then None
    else if s[0] == '"' then
      if |s| > 1 && s[1] == '"' then
        match ReadQuoted(s[2..])
        case None => None
        case Some((v, rest)) => Some(("\"" + v, rest))
      else Some(("", s[1..]))
    else
      match ReadQuoted(s[1..])
      case None => None
      case Some((v, rest)) => Some(([s[0]] + v, rest))
  }

  /** Reads an unquoted field: everything up to the next `;`. */
  function ReadPlain(s: string): (r: (string, string))
    ensures r.0 + r.1 == s && FieldEnd(r.1)
  {
    if |s| == 0 || s[0] == ';' then ("", s)
    else
      var (v, rest) := ReadPlain(s[1..]);
      assert [s[0]] + v + rest == [s[0]] + (v + rest);
      ([s[0]] + v, rest)
  }

  /** Reads one field at the start of `s`. */
  function ReadField(s: string): (r: Option<(string, string)>)
    ensures r.Some? ==> |r.value.1| <= |s|
  {
    if |s| > 0 && s[0] == '"' then ReadQuoted(s[1..]) else Some(ReadPlain(s))
  }

  /** A record split into its field values; `None` when a quoted field is
      unterminated or followed by something other than `;`. */
  function SplitRecord(s: string): Option<seq<string>>
    decreases |s|
  {
    match ReadField(s)
    case None => None
    case Some((v, rest)) =>
      if rest == "" then Some([v])
      else if rest[0] != ';' then None
      else
        match SplitRecord(rest[1..])
        case None => None
        case Some(vs) => Some([v] + vs)
  }

  /** `string.Join(";", fields)`. */
  function JoinFields(fs: seq<string>): string
    requires |fs| > 0
  {
    if |fs| == 1 then fs[0] else fs[0] + ";" + JoinFields(fs[1..])
  }

  /** Every value passed through `EscaparCsv`. */
  function EscapeAll(vs: seq<string>): (es: seq<string>)
    ensures |es| == |vs|
    ensures forall i | 0 <= i < |vs| :: es[i] == EscaparCsv(Some(vs[i]))
  {
    seq(|vs|, i requires 0 <= i < |vs| => EscaparCsv(Some(vs[i])))
  }

  /** Undoubling reads back a doubled value up to the closing quote. */
  lemma {:induction false} ReadQuotedDoubled(v: string, rest: string)
    requires FieldEnd(rest)
    ensures ReadQuoted(DoubleQuotes(v) + "\"" + rest) == Some((v, rest))
  {
    var s := DoubleQuotes(v) + "\"" + rest;
    if |v| == 0 {
      assert s == "\"" + rest;
    } else if v[0] == '"' {
      assert s == "\"\"" + (DoubleQuotes(v[1..]) + "\"" + rest);
      assert s[2..] == DoubleQuotes(v[1..]) + "\"" + rest;
      ReadQuotedDoubled(v[1..], rest);
      assert "\"" + v[1..] == v;
    } else {
      assert s == [v[0]] + (DoubleQuotes(v[1..]) + "\"" + rest);
      assert s[1..] == DoubleQuotes(v[1..]) + "\"" + rest;
      ReadQuotedDoubled(v[1..], rest);
      assert [v[0]] + v[1..] == v;
    }
  }

  /** A value without `;` is read back whole by the unquoted reader. */
  lemma {:induction false} ReadPlainExact(v: string, rest: string)
    requires ';' !in v && FieldEnd(rest)
    ensures ReadPlain(v + rest) == (v, rest)
  {
    if |v| > 0 {
      assert (v + rest)[0] == v[0] && v[0] != ';';
      assert (v + rest)[1..] == v[1..] + rest;
      ReadPlainExact(v[1..], rest);
      assert [v[0]] + v[1..] == v;
    } else {
      assert v + rest == rest;
    }
  }

  /** Round trip of one field: the reader gives back what `EscaparCsv`
      escaped (null read as ""), and stops at the delimiter after it. */
  lemma FieldRoundTrip(v: Option<string>, rest: string)
    requires FieldEnd(rest)
    ensures ReadField(EscaparCsv(v) + rest) == Some((v.GetOr(""), rest))
  {
    if IsNullOrEmpty(v) {
      EmptyFieldRoundTrip(v, rest);
    } else if NeedsQuoting(v.value) {
      QuotedFieldRoundTrip(v.value, rest);
    } else {
      PlainFieldRoundTrip(v.value, rest);
    }
  }

  lemma EmptyFieldRoundTrip(v: Option<string>, rest: string)
    requires FieldEnd(rest) && IsNullOrEmpty(v)
    ensures ReadField(EscaparCsv(v) + rest) == Some((v.GetOr(""), rest))
  {
    assert EscaparCsv(v) + rest == rest;
    ReadPlainExact("", rest);
    assert "" + rest == rest;
  }

  lemma QuotedFieldRoundTrip(v: string, rest: string)
    requires FieldEnd(rest) && |v| > 0 && NeedsQuoting(v)
    ensures ReadField(EscaparCsv(Some(v)) + rest) == Some((v, rest))
  {
    var e := EscaparCsv(Some(v));
    assert e == "\"" + DoubleQuotes(v) + "\"";
    assert (e + rest)[0] == '"';
    assert (e + rest)[1..] == DoubleQuotes(v) + "\"" + rest;
    ReadQuotedDoubled(v, rest);
  }

  lemma PlainFieldRoundTrip(v: string, rest: string)
    requires FieldEnd(rest) && |v| > 0 && !NeedsQuoting(v)
    ensures ReadField(EscaparCsv(Some(v)) + rest) == Some((v, rest))
  {
    assert EscaparCsv(Some(v)) == v;
    assert (v + rest)[0] == v[0] && v[0] != '"';
    ReadPlainExact(v, rest);
  }

  /** Round trip of a record: joining escaped values with `;` and splitting
      the result gives the values back, whatever they contain. */
  lemma {:induction false} SplitJoin(vs: seq<string>)
    requires |vs| > 0
    ensures SplitRecord(JoinFields(EscapeAll(vs))) == Some(vs)
  {
    var es := EscapeAll(vs);
    if |vs| == 1 {
      FieldRoundTrip(Some(vs[0]), "");
      assert es[0] + "" == es[0];
      assert vs == [vs[0]];
    } else {
      var tail := JoinFields(es[1..]);
      assert es[1..] == EscapeAll(vs[1..]);
      assert JoinFields(es) == es[0] + (";" + tail);
      FieldRoundTrip(Some(vs[0]), ";" + tail);
      assert (";" + tail)[1..] == tail;
      SplitJoin(vs[1..]);
      assert [vs[0]] + vs[1..] == vs;
    }
  }

  /** A value built from digits and dashes needs no quoting. */
  lemma DigitsAndDashesPlain(s: string)
    requires forall i | 0 <= i < |s| :: IsDigit(s[i]) || s[i] == '-'
    ensures !NeedsQuoting(s)
  {
  }

  /** The CSV text of a birth date: empty for `default`, else `yyyy-MM-dd`. */
  function NascimentoCsv(d: DateTime): (r: string)
    ensures IsDefault(d) <==> r == ""
    ensures !NeedsQuoting(r)
  {
    if IsDefault(d) then ""
    else
      var y, m, dd := PadNat(d.year, 4), PadNat(d.month, 2), PadNat(d.day, 2);
      assert IsoDate(d) == y + "-" + m + "-" + dd;
      DigitsAndDashesPlain(IsoDate(d));
      IsoDate(d)
  }

  /** The header line. */
  const Header: string := "Matricula;Nome;CPF;Nascimento;Sexo;Cidade;UF"

  /** The column titles, in order. */
  const Colunas: seq<string> := ["Matricula", "Nome", "CPF", "Nascimento", "Sexo", "Cidade", "UF"]

  /** The header is the seven column titles joined with `;`. */
  lemma HeaderSplits()
    ensures SplitRecord(Header) == Some(Colunas)
  {
    ColunasPlain();
    assert EscapeAll(Colunas) == Colunas;
    HeaderJoin();
    SplitJoin(Colunas);
  }

  lemma ColunasPlain()
    ensures forall i | 0 <= i < |Colunas| :: !NeedsQuoting(Colunas[i])
  {
  }

  lemma HeaderJoin()
    ensures JoinFields(Colunas) == Header
  {
  }

  /** The seven values a data row is meant to carry, in column order. */
  function CsvFields(a: Aluno): (fs: seq<string>)
    ensures |fs| == 7
  {
    [DecimalText(a.matricula), a.nome.GetOr(""), a.cpf.GetOr(""), NascimentoCsv(a.nascimento),
     SexoLabel(a.sexo), a.cidadeNome.GetOr(""), a.uf.GetOr("")]
  }

  /** The seven texts a data row writes: only Nome and Cidade go through
      `EscaparCsv`; CPF and UF are written raw. */
  function CsvValores(a: Aluno): (vs: seq<string>)
    ensures |vs| == 7
  {
    [DecimalText(a.matricula), EscaparCsv(a.nome), a.cpf.GetOr(""), NascimentoCsv(a.nascimento),
     SexoLabel(a.sexo), EscaparCsv(Some(a.cidadeNome.GetOr(""))), a.uf.GetOr("")]
  }

  /** One data row as written. When CPF and UF hold no `;`, `"` or line
      feed it is the seven values, each escaped, joined by `;`. */
  function CsvRow(a: Aluno): (r: string)
    ensures !NeedsQuoting(a.cpf.GetOr("")) && !NeedsQuoting(a.uf.GetOr("")) ==> r == JoinFields(EscapeAll(CsvFields(a)))
  {
    var ws := CsvValores(a);
    if !NeedsQuoting(a.cpf.GetOr("")) && !NeedsQuoting(a.uf.GetOr("")) then
      var es := EscapeAll(CsvFields(a));
      EscapeColumns(a);
      assert es[2] == ws[2] && es[6] == ws[6];
      assert es == ws;
      JoinFields(ws)
    else JoinFields(ws)
  }

  /** The fields the row writes without escaping never need it. */
  lemma FixedFieldsPlain(a: Aluno)
    ensures !NeedsQuoting(DecimalText(a.matricula))
    ensures !NeedsQuoting(SexoLabel(a.sexo))
  {
    DigitsAndDashesPlain(DecimalText(a.matricula)) by {
      var n := a.matricula;
      if n < 0 {
        assert forall i | 1 <= i < |DecimalText(n)| :: DecimalText(n)[i] == NatText(-n)[i - 1];
      }
    }
  }

  /** A row reads back as the student's seven values, provided the CPF and
      UF hold no `;`, `"` or line feed. */
  lemma CsvRowRoundTrip(a: Aluno)
    requires !NeedsQuoting(a.cpf.GetOr("")) && !NeedsQuoting(a.uf.GetOr(""))
    ensures SplitRecord(CsvRow(a)) == Some(CsvFields(a))
  {
    SplitJoin(CsvFields(a));
  }



  /** Escaping the values of the columns the row escapes, or that never
      need it, gives the written texts. */
  lemma EscapeColumns(a: Aluno)
    ensures forall k | 0 <= k < 7 && k != 2 && k != 6 :: EscaparCsv(Some(CsvFields(a)[k])) == CsvValores(a)[k]
  {
    FixedFieldsPlain(a);
    var fs, ws := CsvFields(a), CsvValores(a);
    assert fs[0] == DecimalText(a.matricula) && ws[0] == fs[0];
    assert fs[1] == a.nome.GetOr("") && ws[1] == EscaparCsv(a.nome);
    assert fs[3] == NascimentoCsv(a.nascimento) && ws[3] == fs[3];
    assert fs[4] == SexoLabel(a.sexo) && ws[4] == fs[4];
    assert fs[5] == a.cidadeNome.GetOr("") && ws[5] == EscaparCsv(Some(fs[5]));
  }

  /** The values read back identify the student: the first parses to the
      `Matricula` and the fifth to the sex. */
  lemma CsvFieldsIdentify(a: Aluno)
    requires IsInt32(a.matricula)
    ensures TryParseInt32(CsvFields(a)[0]) == Some(a.matricula)
    ensures TryParseSexo(CsvFields(a)[4]) == Some(a.sexo)
  {
    TryParseDecimalText(a.matricula);
    TryParseSexoRoundTrip(a.sexo, SexoLabel(a.sexo));
  }

  /** `GerarCsv`: the header line, then one row per student in input order
      (as records; a line feed inside a quoted field is part of its record). */
  function GerarCsv(alunos: seq<Aluno>): (linhas: seq<string>)
    ensures |linhas| == |alunos| + 1
  {
    [Header] + seq(|alunos|, i requires 0 <= i < |alunos| => CsvRow(alunos[i]))
  }

  /** The first line of the export reads back as the column titles. */
  lemma GerarCsvCabecalho(alunos: seq<Aluno>)
    ensures SplitRecord(GerarCsv(alunos)[0]) == Some(Colunas)
  {
    assert GerarCsv(alunos)[0] == Header;
    HeaderSplits();
  }

  /** Line `i + 1` of the export reads back as the values of student `i`,
      provided its CPF and UF hold no `;`, `"` or line feed. */
  lemma GerarCsvLinha(alunos: seq<Aluno>, i: int)
    requires 0 <= i < |alunos|
    requires !NeedsQuoting(alunos[i].cpf.GetOr("")) && !NeedsQuoting(alunos[i].uf.GetOr(""))
    ensures SplitRecord(GerarCsv(alunos)[i + 1]) == Some(CsvFields(alunos[i]))
  {
    assert GerarCsv(alunos)[i + 1] == CsvRow(alunos[i]);
    CsvRowRoundTrip(alunos[i]);
  }

  /** A CPF that passes `ValidarCPF` and keeps its `;` after the controller
      strips `.` and `-`. */
  const CpfComPontoEVirgula: string := "529982247;25"

  /** Joining is blind to where a `;` came from: a value `x;y` joins as the
      two values `x` and `y`. */
  lemma {:induction false} JoinSplitsValue(p: seq<string>, x: string, y: string, q: seq<string>)
    requires |q| > 0
    ensures JoinFields(p + [x + ";" + y] + q) == JoinFields(p + [x, y] + q)
    decreases |p|
  {
    if |p| == 0 {
      assert [x + ";" + y] + q == [x + ";" + y] + q;
      assert ([x + ";" + y] + q)[1..] == q;
      assert ([x, y] + q)[1..] == [y] + q;
      assert ([y] + q)[1..] == q;
      assert p + [x + ";" + y] + q == [x + ";" + y] + q;
      assert p + [x, y] + q == [x, y] + q;
    } else {
      assert (p + [x + ";" + y] + q)[1..] == p[1..] + [x + ";" + y] + q;
      assert (p + [x, y] + q)[1..] == p[1..] + [x, y] + q;
      JoinSplitsValue(p[1..], x, y, q);
    }
  }

  /** As written, a CPF `x;y` splits its row: the reader sees eight values,
      the CPF's two halves in place of the CPF. */
  lemma CsvRowSplitsCpf(a: Aluno, x: string, y: string)
    requires a.cpf == Some(x + ";" + y)
    requires !NeedsQuoting(x) && !NeedsQuoting(y) && !NeedsQuoting(a.uf.GetOr(""))
    ensures SplitRecord(CsvRow(a)) == Some(CsvFields(a)[..2] + [x, y] + CsvFields(a)[3..])
  {
    var fs := CsvFields(a);
    var vs := fs[..2] + [x, y] + fs[3..];
    var ws := CsvValores(a);
    EscapedWithCpfSplit(a, x, y);
    assert ws == ws[..2] + [x + ";" + y] + ws[3..];
    JoinSplitsValue(ws[..2], x, y, ws[3..]);
    SplitJoin(vs);
  }

  /** Escaping the eight values gives the written texts with the CPF's two
      halves in place of the CPF. */
  lemma EscapedWithCpfSplit(a: Aluno, x: string, y: string)
    requires a.cpf == Some(x + ";" + y)
    requires !NeedsQuoting(x) && !NeedsQuoting(y) && !NeedsQuoting(a.uf.GetOr(""))
    ensures EscapeAll(CsvFields(a)[..2] + [x, y] + CsvFields(a)[3..]) == CsvValores(a)[..2] + [x, y] + CsvValores(a)[3..]
  {
    var fs, ws := CsvFields(a), CsvValores(a);
    EscapeColumns(a);
    assert EscapeAll(fs[..2]) == ws[..2];
    assert EscapeAll([x, y]) == [x, y];
    assert EscapeAll(fs[3..]) == ws[3..] by {
      assert fs[3..][3] == a.uf.GetOr("") && ws[3..][3] == a.uf.GetOr("");
    }
    EscapeAllConcat(fs[..2], [x, y]);
    EscapeAllConcat(fs[..2] + [x, y], fs[3..]);
  }

  /** Escaping distributes over concatenation. */
  lemma EscapeAllConcat(p: seq<string>, q: seq<string>)
    ensures EscapeAll(p + q) == EscapeAll(p) + EscapeAll(q)
  {
  }

  /** The controller's normalisation keeps a CPF without `.` or `-` as it is. */
  lemma NormalisationKeeps(cpf: string)
    requires '.' !in cpf && '-' !in cpf
    ensures RemoveChar(RemoveChar(cpf, '.'), '-') == cpf
  {
    RemoveAbsentChar(cpf, '.');
    RemoveAbsentChar(cpf, '-');
  }

  /** So such a row reads back as eight values, not the seven it is meant
      to carry. */
  lemma CsvRowEightValues(a: Aluno, x: string, y: string)
    requires a.cpf == Some(x + ";" + y)
    requires !NeedsQuoting(x) && !NeedsQuoting(y) && !NeedsQuoting(a.uf.GetOr(""))
    ensures SplitRecord(CsvRow(a)).Some? && |SplitRecord(CsvRow(a)).value| == 8
    ensures SplitRecord(CsvRow(a)) != Some(CsvFields(a))
  {
    CsvRowSplitsCpf(a, x, y);
  }

  /** "529982247;25" passes `ValidarCPF`. */
  lemma CpfComPontoEVirgulaValido(cpf: string)
    requires cpf == CpfComPontoEVirgula
    ensures Validations.ValidarCPF(Some(cpf))
  {
    Validations.ExampleCpfWithSemicolon(cpf);
  }

  /** "529982247;25" is two plain values around a `;`. */
  lemma CpfComPontoEVirgulaPartes(cpf: string)
    requires cpf == CpfComPontoEVirgula
    ensures cpf == cpf[..9] + ";" + cpf[10..]
    ensures !NeedsQuoting(cpf[..9]) && !NeedsQuoting(cpf[10..])
  {
  }

  /** The controller's normalisation stores "529982247;25" as it is. */
  lemma CpfComPontoEVirgulaNormalizado(cpf: string)
    requires cpf == CpfComPontoEVirgula
    ensures RemoveChar(RemoveChar(cpf, '.'), '-') == cpf
  {
    NormalisationKeeps(cpf);
  }

  /** As written: a student stored with the CPF "529982247;25", which passes
      `ValidarCPF`, gets a row that reads back as eight values. */
  lemma CsvRowCpfDelimiter(a: Aluno, cpf: string)
    requires cpf == CpfComPontoEVirgula
    requires a.cpf == Some(cpf) && !NeedsQuoting(a.uf.GetOr(""))
    ensures Validations.ValidarCPF(Some(cpf))
    ensures SplitRecord(CsvRow(a)).Some? && |SplitRecord(CsvRow(a)).value| == 8
    ensures SplitRecord(CsvRow(a)) != Some(CsvFields(a))
  {
    CpfComPontoEVirgulaValido(cpf);
    CpfComPontoEVirgulaPartes(cpf);
    CsvRowEightValues(a, cpf[..9], cpf[10..]);
  }

  /** The row with every text field escaped, as evidently intended. */
  function CsvRowEscaped(a: Aluno): (r: string)
    ensures SplitRecord(r) == Some(CsvFields(a))
  {
    SplitJoin(CsvFields(a));
    JoinFields(EscapeAll(CsvFields(a)))
  }

  /** The escaped row is the written row whenever the CPF and UF are plain,
      so the correction changes nothing for well-formed data. */
  lemma CsvRowEscapedAgrees(a: Aluno)
    requires !NeedsQuoting(a.cpf.GetOr("")) && !NeedsQuoting(a.uf.GetOr(""))
    ensures CsvRowEscaped(a) == CsvRow(a)
  {
  }
}
