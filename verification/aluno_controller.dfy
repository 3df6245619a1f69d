/** `AlunoController`: the decisions of the student pages. A POST action
    runs its checks in order and stops at the first that fails, leaving the
    table as it was; the report and the search select students through the
    shared filter dispatch. `ModelState.IsValid` (the form's own data
    annotations) arrives as the boolean `valido`. */
module AlunoController {
  import opened Wrappers
  import opened Text
  import opened Numbers
  import opened Dates
  import opened Alunos
  import opened Cidades
  import opened Validations
  import opened Banco
  import Repo = RepositorioAbstrato
  import RepositorioAluno
  import RepositorioCidade
  import Filtros
  import RelatorioCsv
  import RelatorioService
  import Seqs

  /** `AlunoViewModel`: the fields a student form posts. */
  datatype AlunoModel = AlunoModel(
    matricula: int,
    nome: Option<string>,
    cpf: Option<string>,
    nascimento: DateTime,
    sexo: Sexo,
    cidadeCodigo: Option<int>)

  /** A blank string holds no `.` and no `-`. */
  lemma BlankHasNoSeparators(s: string)
    requires IsBlank(s)
    ensures '.' !in s && '-' !in s
  {
  }

  /** Removing a non-digit keeps the digits. */
  lemma RemoveCharKeepsDigits(s: string, c: char)
    requires !IsDigit(c)
    ensures DigitsOnly(RemoveChar(s, c)) == DigitsOnly(s)
  {
    Seqs.FilterFilter(s, Other(c), IsDigit);
    Seqs.FilterAgree(s, Seqs.Both(Other(c), IsDigit), IsDigit);
  }

  /** `CPF?.Replace(".", "").Replace("-", "")`: the separators of the
      formatted spelling removed. The digits, and so the verdict of
      `ValidarCPF`, stay the same; a blank CPF is kept as it is. */
  function NormalizarCpf(cpf: Option<string>): (r: Option<string>)
    ensures r.None? <==> cpf.None?
    ensures r.Some? ==> '.' !in r.value && '-' !in r.value
    ensures r.Some? ==> DigitsOnly(r.value) == DigitsOnly(cpf.value)
    ensures ValidarCPF(r) == ValidarCPF(cpf)
    ensures IsNullOrWhiteSpace(cpf) ==> r == cpf
  {
    match cpf
    case None => None
    case Some(s) =>
      var n := RemoveChar(RemoveChar(s, '.'), '-');
      assert '.' !in n;
      RemoveCharKeepsDigits(s, '.');
      RemoveCharKeepsDigits(RemoveChar(s, '.'), '-');
      ValidarCPFIgnoresNonDigits(s);
      ValidarCPFIgnoresNonDigits(n);
      NormalizarBlank(s);
      Some(n)
  }

  /** Normalising a blank string leaves it as it is. */
  lemma NormalizarBlank(s: string)
    ensures IsBlank(s) ==> RemoveChar(RemoveChar(s, '.'), '-') == s
  {
    if IsBlank(s) {
      BlankHasNoSeparators(s);
      RemoveAbsentChar(s, '.');
      RemoveAbsentChar(s, '-');
    }
  }

  /** The row the POST actions write for a form: name trimmed, CPF
      normalised, the rest as posted. */
  function Entidade(model: AlunoModel): Aluno {
    Aluno(model.matricula, TrimOpt(model.nome), NormalizarCpf(model.cpf), model.nascimento,
      model.sexo, model.cidadeCodigo, None, None)
  }

  /** Some row other than `excluir` stores exactly the text `cpf`. */
  predicate Armazenado(t: RepositorioAluno.TabelaAlunos, cpf: Option<string>, excluir: Option<int>) {
    exists i | 0 <= i < |t.rows| :: t.rows[i].cpf == cpf && (excluir.None? || t.rows[i].matricula != excluir.value)
  }

  /** The POST form passes every check. */
  predicate Aceito(t: RepositorioAluno.TabelaAlunos, model: AlunoModel, valido: bool, excluir: Option<int>) {
    && valido
    && (IsNullOrWhiteSpace(model.cpf) || (ValidarCPF(model.cpf) && !Armazenado(t, model.cpf, excluir)))
    && ValidarNome(model.nome)
  }

  /** The checks of `Create` and `Edit` in their order: the form, then a
      non-blank CPF's check digits, then whether another row stores that
      CPF (compared as posted, `excluir` sparing the student being edited),
      then the name. The first that fails is the answer. */
  function Verificar(t: RepositorioAluno.TabelaAlunos, model: AlunoModel, valido: bool, excluir: Option<int>): (m: Option<Motivo>)
    ensures m.None? <==> Aceito(t, model, valido, excluir)
    ensures m == Some(ModeloInvalido) <==> !valido
    ensures m == Some(CpfInvalido) <==> valido && !IsNullOrWhiteSpace(model.cpf) && !ValidarCPF(model.cpf)
    ensures m == Some(CpfJaCadastrado) <==>
      valido && !IsNullOrWhiteSpace(model.cpf) && ValidarCPF(model.cpf) && Armazenado(t, model.cpf, excluir)
    ensures m.Some? ==> m.value in {ModeloInvalido, CpfInvalido, CpfJaCadastrado, NomeInvalido}
  {
    if !valido then Some(ModeloInvalido)
    else if !IsNullOrWhiteSpace(model.cpf) && !ValidarCPF(model.cpf) then Some(CpfInvalido)
    else if !IsNullOrWhiteSpace(model.cpf) && RepositorioAluno.CPFExiste(t, model.cpf.value, excluir) then Some(CpfJaCadastrado)
    else if !ValidarNome(model.nome) then Some(NomeInvalido)
    else None
  }

  /** `Create` (POST): on success one row is appended, holding the trimmed
      name (3 to 100 code units) and the normalised CPF (null, blank, or a
      valid CPF without separators). A rejection names the first failed
      check and leaves the table unchanged. */
  function Create(t: RepositorioAluno.TabelaAlunos, model: AlunoModel, valido: bool): (r: Efeito<RepositorioAluno.TabelaAlunos>)
    ensures r.desfecho.Sucesso? <==> Aceito(t, model, valido, None)
    ensures r.desfecho.Falha? ==> r.tabela == t && Some(r.desfecho.motivo) == Verificar(t, model, valido, None)
    ensures r.desfecho.Sucesso? ==>
      |r.tabela.rows| == |t.rows| + 1 && r.tabela.rows[..|t.rows|] == t.rows &&
      var row := r.tabela.rows[|t.rows|];
      row.matricula == t.nextKey && row.nome.Some? && 3 <= Utf16Length(row.nome.value) <= 100 &&
      row.nome == TrimOpt(model.nome) && row.cpf == NormalizarCpf(model.cpf) &&
      (row.cpf.None? || IsBlank(row.cpf.value) || ValidarCPF(row.cpf)) &&
      row.nascimento == model.nascimento && row.sexo == model.sexo && row.cidadeCodigo == model.cidadeCodigo
  {
    match Verificar(t, model, valido, None)
    case Some(m) => Efeito(t, Falha(m))
    case None =>
      var t' := RepositorioAluno.Add(t, Entidade(model));
      assert t'.rows[|t.rows|] == RepositorioAluno.InsertRow(Entidade(model), t.nextKey);
      Efeito(t', Sucesso)
  }

  /** After a successful `Create`, the new key reads back as the stored
      student and every other key reads as before. */
  lemma CreateSpec(t: RepositorioAluno.TabelaAlunos, model: AlunoModel, valido: bool, m: int)
    requires Repo.Valid(t, RepositorioAluno.Matricula)
    ensures var r := Create(t, model, valido);
      Repo.Valid(r.tabela, RepositorioAluno.Matricula) &&
      (r.desfecho.Sucesso? ==>
        RepositorioAluno.GetByMatricula(r.tabela, t.nextKey) ==
          Some(Aluno(t.nextKey, TrimOpt(model.nome), NormalizarCpf(model.cpf), model.nascimento, model.sexo, model.cidadeCodigo, None, None)) &&
        (m != t.nextKey ==> RepositorioAluno.GetByMatricula(r.tabela, m) == RepositorioAluno.GetByMatricula(t, m)))
  {
    if Create(t, model, valido).desfecho.Sucesso? {
      RepositorioAluno.AddSpec(t, Entidade(model), m);
    }
  }

  /** With a blank or absent CPF the table plays no part in the outcome. */
  lemma CreateCpfEmBranco(t: RepositorioAluno.TabelaAlunos, u: RepositorioAluno.TabelaAlunos, model: AlunoModel, valido: bool)
    requires IsNullOrWhiteSpace(model.cpf)
    ensures Create(t, model, valido).desfecho == Create(u, model, valido).desfecho
  {
  }

  /** A stored name is trimmed and 3 to 100 UTF-16 code units long, and a
      stored CPF is free of `.` and `-` and is null, blank or valid: what
      `Create` and `Edit` write. */
  predicate Registro(row: RepositorioAluno.AlunoRow) {
    && row.nome.Some? && Trim(row.nome.value) == row.nome.value
    && 3 <= Utf16Length(row.nome.value) <= 100
    && (row.cpf.Some? ==> '.' !in row.cpf.value && '-' !in row.cpf.value)
    && (IsNullOrWhiteSpace(row.cpf) || ValidarCPF(row.cpf))
  }

  predicate Registros(t: RepositorioAluno.TabelaAlunos) {
    forall i | 0 <= i < |t.rows| :: Registro(t.rows[i])
  }

  /** The row written for an accepted form satisfies `Registro`. */
  lemma EntidadeRegistro(model: AlunoModel, k: int)
    requires ValidarNome(model.nome) && (IsNullOrWhiteSpace(model.cpf) || ValidarCPF(model.cpf))
    ensures Registro(RepositorioAluno.InsertRow(Entidade(model), k))
    ensures Registro(RepositorioAluno.UpdateRow(Entidade(model)))
  {
    TrimIdempotent(model.nome.value);
  }

  lemma CreateKeepsRegistros(t: RepositorioAluno.TabelaAlunos, model: AlunoModel, valido: bool)
    requires Registros(t)
    ensures Registros(Create(t, model, valido).tabela)
  {
    if Aceito(t, model, valido, None) {
      var row := RepositorioAluno.InsertRow(Entidade(model), t.nextKey);
      EntidadeRegistro(model, t.nextKey);
      var t' := RepositorioAluno.Add(t, Entidade(model));
      assert t'.rows == t.rows + [row];
      AppendKeepsRegistros(t, row, t');
      assert Create(t, model, valido).tabela == t';
    }
  }

  /** `Edit` (POST): a form whose key differs from the route's is "not
      found"; otherwise the checks of `Create` run, the CPF check sparing
      the student itself, and an accepted form rewrites every row with that
      key (none, if the student is gone, which still reports success). */
  function Edit(t: RepositorioAluno.TabelaAlunos, id: int, model: AlunoModel, valido: bool): (r: Efeito<RepositorioAluno.TabelaAlunos>)
    ensures id != model.matricula ==> r == Efeito(t, Falha(NaoEncontrado))
    ensures r.desfecho.Falha? ==> r.tabela == t
    ensures r.desfecho.Sucesso? <==> id == model.matricula && Aceito(t, model, valido, Some(id))
    ensures id == model.matricula ==> (r.desfecho == Falha(CpfJaCadastrado) <==>
      valido && !IsNullOrWhiteSpace(model.cpf) && ValidarCPF(model.cpf) && Armazenado(t, model.cpf, Some(id)))
    ensures r.desfecho.Sucesso? ==>
      |r.tabela.rows| == |t.rows| && r.tabela.nextKey == t.nextKey &&
      forall i | 0 <= i < |t.rows| ::
        if t.rows[i].matricula == id then
          r.tabela.rows[i] == RepositorioAluno.AlunoRow(id, TrimOpt(model.nome), NormalizarCpf(model.cpf),
            model.nascimento, model.sexo, model.cidadeCodigo)
        else r.tabela.rows[i] == t.rows[i]
  {
    if id != model.matricula then Efeito(t, Falha(NaoEncontrado))
    else
      match Verificar(t, model, valido, Some(model.matricula))
      case Some(m) => Efeito(t, Falha(m))
      case None => Efeito(RepositorioAluno.Update(t, Entidade(model)), Sucesso)
  }

  /** After a successful `Edit`, the student reads back as the form (if it
      was stored), an absent student leaves the table as it was, and every
      other key reads as before. */
  lemma EditSpec(t: RepositorioAluno.TabelaAlunos, id: int, model: AlunoModel, valido: bool, m: int)
    requires Repo.Valid(t, RepositorioAluno.Matricula)
    ensures var r := Edit(t, id, model, valido);
      Repo.Valid(r.tabela, RepositorioAluno.Matricula) &&
      (r.desfecho.Sucesso? && Repo.Exists(t, id, RepositorioAluno.Matricula) ==>
        RepositorioAluno.GetByMatricula(r.tabela, id) ==
          Some(Aluno(id, TrimOpt(model.nome), NormalizarCpf(model.cpf), model.nascimento, model.sexo, model.cidadeCodigo, None, None))) &&
      (r.desfecho.Sucesso? && !Repo.Exists(t, id, RepositorioAluno.Matricula) ==> r.tabela == t) &&
      (m != id ==> RepositorioAluno.GetByMatricula(r.tabela, m) == RepositorioAluno.GetByMatricula(t, m))
  {
    if Edit(t, id, model, valido).desfecho.Sucesso? {
      RepositorioAluno.UpdateSpec(t, Entidade(model), m);
    }
  }

  /** Appending a row that satisfies `Registro` keeps `Registros`. */
  lemma AppendKeepsRegistros(t: RepositorioAluno.TabelaAlunos, row: RepositorioAluno.AlunoRow, t': RepositorioAluno.TabelaAlunos)
    requires Registros(t) && Registro(row) && t'.rows == t.rows + [row]
    ensures Registros(t')
  {
    assert forall i | 0 <= i < |t'.rows| :: t'.rows[i] == if i < |t.rows| then t.rows[i] else row;
  }

  /** Rewriting rows with a row that satisfies `Registro` keeps
      `Registros`. */
  lemma UpdateKeepsRegistros(t: RepositorioAluno.TabelaAlunos, row: RepositorioAluno.AlunoRow)
    requires Registros(t) && Registro(row)
    ensures Registros(Repo.Update(t, row, RepositorioAluno.Matricula))
  {
    var rows := Repo.Update(t, row, RepositorioAluno.Matricula).rows;
    assert forall i | 0 <= i < |rows| :: rows[i] == t.rows[i] || rows[i] == row;
  }

  lemma EditKeepsRegistros(t: RepositorioAluno.TabelaAlunos, id: int, model: AlunoModel, valido: bool)
    requires Registros(t)
    ensures Registros(Edit(t, id, model, valido).tabela)
  {
    if id == model.matricula && Aceito(t, model, valido, Some(id)) {
      var row := RepositorioAluno.UpdateRow(Entidade(model));
      EntidadeRegistro(model, 0);
      UpdateKeepsRegistros(t, row);
      assert Edit(t, id, model, valido).tabela == Repo.Update(t, row, RepositorioAluno.Matricula);
    }
  }

  /** No two rows store the same non-blank CPF text. */
  predicate CpfsUnicos(t: RepositorioAluno.TabelaAlunos) {
    forall i, j | 0 <= i < |t.rows| && 0 <= j < |t.rows| && i != j && t.rows[i].cpf.Some? && !IsBlank(t.rows[i].cpf.value) ::
      t.rows[i].cpf != t.rows[j].cpf
  }

  /** Saving a student again with the CPF it already stores is not turned
      down as a duplicate. */
  lemma EditOwnCpf(t: RepositorioAluno.TabelaAlunos, k: nat, model: AlunoModel, valido: bool)
    requires CpfsUnicos(t) && k < |t.rows|
    requires model.matricula == t.rows[k].matricula && model.cpf == t.rows[k].cpf
    ensures Edit(t, model.matricula, model, valido).desfecho != Falha(CpfJaCadastrado)
  {
  }

  /** `Delete` (POST): the student is looked up by key and, when found,
      removed; otherwise "not found" and nothing changes. */
  function Delete(t: RepositorioAluno.TabelaAlunos, id: int): (r: Efeito<RepositorioAluno.TabelaAlunos>)
    ensures r.desfecho.Sucesso? <==> Repo.Exists(t, id, RepositorioAluno.Matricula)
    ensures r.desfecho.Falha? ==> r == Efeito(t, Falha(NaoEncontrado))
    ensures !Repo.Exists(r.tabela, id, RepositorioAluno.Matricula)
  {
    match RepositorioAluno.GetByMatricula(t, id)
    case Some(a) => Efeito(RepositorioAluno.Remove(t, a), Sucesso)
    case None => Efeito(t, Falha(NaoEncontrado))
  }

  /** `Delete` removes exactly the one row with that key and keeps every
      other student. */
  lemma DeleteSpec(t: RepositorioAluno.TabelaAlunos, id: int, m: int)
    requires Repo.Valid(t, RepositorioAluno.Matricula)
    ensures var r := Delete(t, id);
      Repo.Valid(r.tabela, RepositorioAluno.Matricula) &&
      (r.desfecho.Sucesso? ==> Repo.Count(r.tabela) == Repo.Count(t) - 1) &&
      (m != id ==> RepositorioAluno.GetByMatricula(r.tabela, m) == RepositorioAluno.GetByMatricula(t, m))
  {
    match RepositorioAluno.GetByMatricula(t, id)
    case Some(a) =>
      RepositorioAluno.RemoveSpec(t, a, m);
      var k :| 0 <= k < |t.rows| && t.rows[k].matricula == id;
      Repo.RemoveSpec(t, k, RepositorioAluno.Matricula);
    case None =>
  }

  /** `BuscarPorCidades`: the students of every city whose name contains
      `nome`, city by city in the name order of the cities. */
  function BuscarPorCidades(db: Db, nome: string): (r: seq<Aluno>)
    ensures |RepositorioCidade.GetByNome(db.cidades, nome)| == 0 ==> r == []
  {
    Seqs.Flatten(PorCidade(db, RepositorioCidade.GetByNome(db.cidades, nome)))
  }

  /** The students of the cities `BuscarPorCidades` visits, city by city. */
  function PorCidade(db: Db, cidades: seq<Cidade>): (r: seq<seq<Aluno>>)
    ensures |r| == |cidades|
    ensures forall i | 0 <= i < |cidades| :: r[i] == RepositorioAluno.GetByCidade(db.alunos, cidades[i].codigo)
  {
    seq(|cidades|, i requires 0 <= i < |cidades| => RepositorioAluno.GetByCidade(db.alunos, cidades[i].codigo))
  }

  /** Everyone found by city is a stored student of a matching city. */
  lemma BuscarPorCidadesSound(db: Db, nome: string, a: Aluno)
    requires a in BuscarPorCidades(db, nome)
    ensures a in RepositorioAluno.GetAll(db.alunos)
    ensures exists c | c in db.cidades.rows :: ContainingIgnoreCase(c.nome, nome) && a.cidadeCodigo == Some(c.codigo)
  {
    var cidades := RepositorioCidade.GetByNome(db.cidades, nome);
    var partes := PorCidade(db, cidades);
    assert BuscarPorCidades(db, nome) == Seqs.Flatten(partes);
    Seqs.InFlatten(partes, a);
    var i :| 0 <= i < |partes| && a in partes[i];
    RepositorioCidade.GetByNomeMembers(db.cidades, nome, cidades[i]);
    var j :| 0 <= j < |partes[i]| && partes[i][j] == a;
    assert a.cidadeCodigo == Some(cidades[i].codigo);
  }

  /** Every stored student of a matching city is found by city. */
  lemma BuscarPorCidadesComplete(db: Db, nome: string, a: Aluno, c: Cidade)
    requires a in RepositorioAluno.GetAll(db.alunos)
    requires c in db.cidades.rows && ContainingIgnoreCase(c.nome, nome) && a.cidadeCodigo == Some(c.codigo)
    ensures a in BuscarPorCidades(db, nome)
  {
    var cidades := RepositorioCidade.GetByNome(db.cidades, nome);
    var partes := PorCidade(db, cidades);
    assert BuscarPorCidades(db, nome) == Seqs.Flatten(partes);
    RepositorioCidade.GetByNomeMembers(db.cidades, nome, c);
    var i :| 0 <= i < |cidades| && cidades[i] == c;
    var k :| 0 <= k < |db.alunos.rows| && RepositorioAluno.GetAll(db.alunos)[k] == a;
    assert RepositorioAluno.GetAll(db.alunos)[k] == RepositorioAluno.MapFromReader(db.alunos.rows[k]);
    assert db.alunos.rows[k].cidadeCodigo == Some(c.codigo);
    assert a in partes[i];
    Seqs.InFlatten(partes, a);
  }

  /** A student is found by city exactly when it is stored and its city
      code is that of a stored city whose name contains `nome`. */
  lemma BuscarPorCidadesMembers(db: Db, nome: string, a: Aluno)
    ensures a in BuscarPorCidades(db, nome) <==>
      a in RepositorioAluno.GetAll(db.alunos) &&
      exists c | c in db.cidades.rows :: ContainingIgnoreCase(c.nome, nome) && a.cidadeCodigo == Some(c.codigo)
  {
    if a in BuscarPorCidades(db, nome) {
      BuscarPorCidadesSound(db, nome, a);
    }
    if a in RepositorioAluno.GetAll(db.alunos) &&
      exists c | c in db.cidades.rows :: ContainingIgnoreCase(c.nome, nome) && a.cidadeCodigo == Some(c.codigo) {
      var c :| c in db.cidades.rows && ContainingIgnoreCase(c.nome, nome) && a.cidadeCodigo == Some(c.codigo);
      BuscarPorCidadesComplete(db, nome, a, c);
    }
  }

  /** What `Report` answers: the CSV file's lines, or a bad request. The
      500 answer of the exception handler is not modelled. */
  datatype Resposta = ArquivoCsv(linhas: seq<string>) | BadRequest(mensagem: string)

  const SemDados: string := "Nenhum dado encontrado para os filtros informados."
  const FormatoNaoSuportado: string := "Formato não suportado. Use 'csv'."

  /** The students `Report` selects: the report filter, "cidade" meaning
      the students of the matching cities. */
  function SelecaoRelatorio(db: Db, searchType: Option<string>, searchValue: Option<string>): (r: seq<Aluno>)
    ensures IsBlank(Lower(searchType.GetOr(""))) || IsBlank(Trim(searchValue.GetOr(""))) ==> r == RepositorioAluno.GetAll(db.alunos)
    ensures searchType.Some? && searchValue.Some? && Lower(searchType.value) == "cidade" && !IsBlank(Trim(searchValue.value)) ==>
      r == BuscarPorCidades(db, Trim(searchValue.value))
  {
    var r := Filtros.Selecionar(db, Filtros.FiltroRelatorio(searchType, searchValue), (v: string) => BuscarPorCidades(db, v));
    if searchType.Some? && searchValue.Some? && Lower(searchType.value) == "cidade" && !IsBlank(Trim(searchValue.value)) then
      Filtros.FiltroRelatorioPorCidade(searchType.value, searchValue.value);
      r
    else r
  }

  /** `Report`: an empty selection is a bad request; so is a format other
      than "csv" (letter case ignored, null read as "csv"); otherwise the
      CSV of the selected students, each filled in with its city. */
  function Report(db: Db, searchType: Option<string>, searchValue: Option<string>, format: Option<string>): (r: Resposta)
    ensures r == BadRequest(SemDados) <==> |SelecaoRelatorio(db, searchType, searchValue)| == 0
    ensures r == BadRequest(FormatoNaoSuportado) <==>
      |SelecaoRelatorio(db, searchType, searchValue)| > 0 && Lower(format.GetOr("csv")) != "csv"
    ensures r.ArquivoCsv? ==> |r.linhas| == |SelecaoRelatorio(db, searchType, searchValue)| + 1
  {
    var alunos := Filtros.Enriquecer(db.cidades, SelecaoRelatorio(db, searchType, searchValue));
    if |alunos| == 0 then BadRequest(SemDados)
    else if Lower(format.GetOr("csv")) != "csv" then BadRequest(FormatoNaoSuportado)
    else ArquivoCsv(RelatorioCsv.GerarCsv(alunos))
  }

  /** The file's first line is the header, and line `i + 1` reads back as
      the `i`-th selected student with its city filled in, when its CPF and
      UF need no quoting. */
  lemma ReportLinhas(db: Db, searchType: Option<string>, searchValue: Option<string>, format: Option<string>, i: nat)
    requires Report(db, searchType, searchValue, format).ArquivoCsv?
    requires i < |SelecaoRelatorio(db, searchType, searchValue)|
    requires var a := Filtros.PreencherCidade(db.cidades, SelecaoRelatorio(db, searchType, searchValue)[i]);
      !RelatorioCsv.NeedsQuoting(a.cpf.GetOr("")) && !RelatorioCsv.NeedsQuoting(a.uf.GetOr(""))
    ensures var linhas := Report(db, searchType, searchValue, format).linhas;
      RelatorioCsv.SplitRecord(linhas[0]) == Some(RelatorioCsv.Colunas) &&
      RelatorioCsv.SplitRecord(linhas[i + 1]) ==
        Some(RelatorioCsv.CsvFields(Filtros.PreencherCidade(db.cidades, SelecaoRelatorio(db, searchType, searchValue)[i])))
  {
    var alunos := Filtros.Enriquecer(db.cidades, SelecaoRelatorio(db, searchType, searchValue));
    RelatorioCsv.GerarCsvCabecalho(alunos);
    RelatorioCsv.GerarCsvLinha(alunos, i);
  }

  /** The report is insensitive to the letter case of the search type. */
  lemma ReportIgnoresTypeCase(db: Db, t: string, v: Option<string>, format: Option<string>)
    ensures Report(db, Some(Upper(t)), v, format) == Report(db, Some(t), v, format)
  {
    Filtros.FiltroRelatorioNormalised(t, v);
  }

  /** The report by city lists exactly the stored students of the cities
      whose name contains the trimmed value. */
  lemma ReportPorCidade(db: Db, tipo: string, v: string, a: Aluno)
    requires Lower(tipo) == "cidade" && !IsBlank(Trim(v))
    ensures a in SelecaoRelatorio(db, Some(tipo), Some(v)) <==>
      a in RepositorioAluno.GetAll(db.alunos) &&
      exists c | c in db.cidades.rows :: ContainingIgnoreCase(c.nome, Trim(v)) && a.cidadeCodigo == Some(c.codigo)
  {
    Filtros.FiltroRelatorioPorCidade(tipo, v);
    BuscarPorCidadesMembers(db, Trim(v), a);
  }

  /** `Search` never selects by city: "cidade" has no arm of its own. */
  function SemCidade(v: string): seq<Aluno> {
    []
  }

  /** `Search`: `None` (back to the index) for a blank value; otherwise the
      students the search filter selects, the value used as typed. */
  function Search(db: Db, searchType: Option<string>, searchValue: Option<string>): (r: Option<seq<Aluno>>)
    ensures r.None? <==> IsNullOrWhiteSpace(searchValue)
    ensures r.Some? && searchType.Some? && Lower(searchType.value) == "cpf" ==>
      |r.value| <= 1 && forall i | 0 <= i < |r.value| :: r.value[i].cpf == searchValue
    ensures r.Some? && searchType.Some? && Lower(searchType.value) == "matricula" && TryParseInt32(searchValue.value).Some? ==>
      |r.value| <= 1 && forall i | 0 <= i < |r.value| :: Some(r.value[i].matricula) == TryParseInt32(searchValue.value)
    ensures r.Some? && searchType.Some? && Lower(searchType.value) == "sexo" && TryParseSexo(searchValue.value).Some? ==>
      forall i | 0 <= i < |r.value| :: Some(r.value[i].sexo) == TryParseSexo(searchValue.value)
    ensures r.Some? && searchType.Some? && Lower(searchType.value) == "sexo" && TryParseSexo(searchValue.value).Some? ==>
      forall i | 0 <= i < |db.alunos.rows| && Some(db.alunos.rows[i].sexo) == TryParseSexo(searchValue.value) ::
        RepositorioAluno.MapFromReader(db.alunos.rows[i]) in r.value
    ensures r.Some? && searchType.Some? && Lower(searchType.value) == "cpf" ==>
      (|r.value| == 1 <==> exists i | 0 <= i < |db.alunos.rows| :: db.alunos.rows[i].cpf == searchValue)
    ensures r.Some? && searchType.Some? && Lower(searchType.value) == "matricula" && TryParseInt32(searchValue.value).Some? ==>
      (|r.value| == 1 <==> Repo.Exists(db.alunos, TryParseInt32(searchValue.value).value, RepositorioAluno.Matricula))
  {
    match Filtros.FiltroBusca(searchType, searchValue)
    case None => None
    case Some(f) => Some(Filtros.Selecionar(db, f, SemCidade))
  }

  /** Searching by "cidade" is searching by name: it lists the students
      whose own name contains the value. */
  lemma SearchPorCidadeIsPorNome(db: Db, v: string)
    requires !IsBlank(v)
    ensures Search(db, Some("cidade"), Some(v)) == Search(db, Some("nome"), Some(v)) ==
      Some(RepositorioAluno.GetByConteudoNoNome(db.alunos, db.cidades, v))
  {
    assert Lower("cidade") == "cidade";
    assert Lower("nome") == "nome";
  }

  /** The CPF "529.982.247-25", formatted from a stored "52998224725". */
  lemma FormatadoNormaliza(d: string)
    requires |d| == 11 && AllDigits(d)
    ensures var s := RelatorioService.FormatarCpf(Some(d));
      '.' in s && NormalizarCpf(Some(s)) == Some(d) && ValidarCPF(Some(s)) == ValidarCPF(Some(d))
  {
    var s := RelatorioService.FormatarCpf(Some(d));
    RelatorioService.FormatarCpfKeepsDigits(d);
    RelatorioService.FormatarCpfPieces(d);
    assert s[3] == '.';
    assert forall i | 0 <= i < |s| :: IsDigit(s[i]) || s[i] == '.' || s[i] == '-' by {
      forall i | 0 <= i < |s| ensures IsDigit(s[i]) || s[i] == '.' || s[i] == '-' {
        if i < 3 { assert s[i] == d[i]; }
        else if i == 3 || i == 7 || i == 11 { }
        else if i < 7 { assert s[i] == d[i - 1]; }
        else if i < 11 { assert s[i] == d[i - 2]; }
        else { assert s[i] == d[i - 3]; }
      }
    }
    Seqs.FilterFilter(s, Other('.'), Other('-'));
    Seqs.FilterAgree(s, Seqs.Both(Other('.'), Other('-')), IsDigit);
  }

  /** As written, `Create` compares the posted CPF with the stored ones
      before stripping its separators. A student whose CPF is stored as
      "52998224725" can be registered again as "529.982.247-25": the check
      sees no match, and the row written holds "52998224725" a second
      time. */
  lemma CreateDuplicaCpf(t: RepositorioAluno.TabelaAlunos, model: AlunoModel, d: string, k: nat)
    requires Registros(t) && k < |t.rows| && t.rows[k].cpf == Some(d)
    requires |d| == 11 && AllDigits(d) && ValidarCPF(Some(d))
    requires model.cpf == Some(RelatorioService.FormatarCpf(Some(d))) && ValidarNome(model.nome)
    ensures Create(t, model, true).desfecho == Sucesso
    ensures var rows := Create(t, model, true).tabela.rows;
      k < |t.rows| < |rows| && rows[k].cpf == Some(d) && rows[|t.rows|].cpf == Some(d)
  {
    FormatadoNormaliza(d);
    var s := RelatorioService.FormatarCpf(Some(d));
    assert !IsNullOrWhiteSpace(model.cpf) by {
      ValidarCPFCharacterization(model.cpf);
    }
  }

  /** The checks with the duplicate test made on the normalised CPF, the
      text that is stored. */
  function VerificarCorrigido(t: RepositorioAluno.TabelaAlunos, model: AlunoModel, valido: bool, excluir: Option<int>): Option<Motivo> {
    if !valido then Some(ModeloInvalido)
    else if !IsNullOrWhiteSpace(model.cpf) && !ValidarCPF(model.cpf) then Some(CpfInvalido)
    else if !IsNullOrWhiteSpace(model.cpf) && RepositorioAluno.CPFExiste(t, NormalizarCpf(model.cpf).value, excluir) then Some(CpfJaCadastrado)
    else if !ValidarNome(model.nome) then Some(NomeInvalido)
    else None
  }

  /** `Create` with the duplicate test on the normalised CPF. */
  function CreateCorrigido(t: RepositorioAluno.TabelaAlunos, model: AlunoModel, valido: bool): (r: Efeito<RepositorioAluno.TabelaAlunos>)
    ensures r.desfecho.Falha? ==> r.tabela == t
    ensures r.desfecho == Falha(CpfJaCadastrado) <==>
      valido && !IsNullOrWhiteSpace(model.cpf) && ValidarCPF(model.cpf) && Armazenado(t, NormalizarCpf(model.cpf), None)
    ensures r.desfecho.Sucesso? ==> r.tabela == RepositorioAluno.Add(t, Entidade(model))
  {
    match VerificarCorrigido(t, model, valido, None)
    case Some(m) => Efeito(t, Falha(m))
    case None => Efeito(RepositorioAluno.Add(t, Entidade(model)), Sucesso)
  }

  /** A non-blank CPF the validator accepts stays non-blank once normalised. */
  lemma NormalizadoNaoBranco(cpf: Option<string>)
    requires ValidarCPF(cpf)
    ensures NormalizarCpf(cpf).Some? && !IsBlank(NormalizarCpf(cpf).value)
  {
    ValidarCPFCharacterization(NormalizarCpf(cpf));
  }

  /** The corrected `Create` never stores a non-blank CPF twice. */
  lemma CreateCorrigidoKeepsCpfsUnicos(t: RepositorioAluno.TabelaAlunos, model: AlunoModel, valido: bool)
    requires CpfsUnicos(t)
    ensures CpfsUnicos(CreateCorrigido(t, model, valido).tabela)
  {
    var r := CreateCorrigido(t, model, valido);
    if r.desfecho.Sucesso? {
      var rows := r.tabela.rows;
      var n := |t.rows|;
      assert forall i | 0 <= i < n :: rows[i] == t.rows[i];
      if !IsNullOrWhiteSpace(model.cpf) {
        NormalizadoNaoBranco(model.cpf);
        assert forall i | 0 <= i < n :: t.rows[i].cpf != rows[n].cpf;
      } else {
        assert rows[n].cpf == model.cpf;
      }
    }
  }

  /** `Edit` with the duplicate test on the normalised CPF. */
  function EditCorrigido(t: RepositorioAluno.TabelaAlunos, id: int, model: AlunoModel, valido: bool): (r: Efeito<RepositorioAluno.TabelaAlunos>)
    ensures id != model.matricula ==> r == Efeito(t, Falha(NaoEncontrado))
    ensures r.desfecho.Falha? ==> r.tabela == t
    ensures id == model.matricula ==> (r.desfecho == Falha(CpfJaCadastrado) <==>
      valido && !IsNullOrWhiteSpace(model.cpf) && ValidarCPF(model.cpf) && Armazenado(t, NormalizarCpf(model.cpf), Some(id)))
    ensures r.desfecho.Sucesso? ==> r.tabela == RepositorioAluno.Update(t, Entidade(model))
  {
    if id != model.matricula then Efeito(t, Falha(NaoEncontrado))
    else
      match VerificarCorrigido(t, model, valido, Some(model.matricula))
      case Some(m) => Efeito(t, Falha(m))
      case None => Efeito(RepositorioAluno.Update(t, Entidade(model)), Sucesso)
  }

  /** The corrected `Edit` never stores a non-blank CPF twice. */
  lemma EditCorrigidoKeepsCpfsUnicos(t: RepositorioAluno.TabelaAlunos, id: int, model: AlunoModel, valido: bool)
    requires Repo.Valid(t, RepositorioAluno.Matricula) && CpfsUnicos(t)
    ensures CpfsUnicos(EditCorrigido(t, id, model, valido).tabela)
  {
    var r := EditCorrigido(t, id, model, valido);
    if r.desfecho.Sucesso? {
      var rows := r.tabela.rows;
      var novo := RepositorioAluno.UpdateRow(Entidade(model));
      if !IsNullOrWhiteSpace(model.cpf) {
        NormalizadoNaoBranco(model.cpf);
      }
      forall i, j | 0 <= i < |rows| && 0 <= j < |rows| && i != j && rows[i].cpf.Some? && !IsBlank(rows[i].cpf.value)
        ensures rows[i].cpf != rows[j].cpf
      {
        assert !(t.rows[i].matricula == id && t.rows[j].matricula == id);
      }
    }
  }
}
