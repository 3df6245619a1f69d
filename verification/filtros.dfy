/** The search-type dispatch shared by the student searches and reports, and
    the city-name enrichment of a student. `AlunoController.Report` and
    `RelatorioController.AlunosPDF` normalise their filter alike and differ
    only in what the "cidade" type selects; `AlunoController.Search` keeps
    the value as typed and knows no "cidade" type. */
module Filtros {
  import opened Wrappers
  import opened Text
  import opened Numbers
  import opened Alunos
  import opened Cidades
  import Repo = RepositorioAbstrato
  import RepositorioAluno
  import RepositorioCidade
  import Banco

  /** The selection a search type and value ask for. */
  datatype Filtro =
    | Todos
    | PorMatricula(matricula: int)
    | PorCpf(cpf: string)
    | PorSexo(sexo: Sexo)
    | PorCidade(cidade: string)
    | PorNome(nome: string)

  /** The value a selective filter searches with. */
  function Valor(f: Filtro): string
    requires f.PorCpf? || f.PorCidade? || f.PorNome?
  {
    match f
    case PorCpf(v) => v
    case PorCidade(v) => v
    case PorNome(v) => v
  }

  /** The report filter: the type lower-cased and the value trimmed (null
      read as ""); a blank type or value selects everyone; "matricula" and
      "sexo" apply only when the value parses, and fall through to the name
      search otherwise, as does any unknown type. */
  function FiltroRelatorio(searchType: Option<string>, searchValue: Option<string>): (f: Filtro)
    ensures f.Todos? <==> IsBlank(Lower(searchType.GetOr(""))) || IsBlank(Trim(searchValue.GetOr("")))
    ensures f.PorMatricula? ==>
      Lower(searchType.GetOr("")) == "matricula" && TryParseInt32(Trim(searchValue.GetOr(""))) == Some(f.matricula)
    ensures f.PorSexo? ==>
      Lower(searchType.GetOr("")) == "sexo" && TryParseSexo(Trim(searchValue.GetOr(""))) == Some(f.sexo)
    ensures !f.Todos? ==> (f.PorCpf? <==> Lower(searchType.GetOr("")) == "cpf")
    ensures !f.Todos? ==> (f.PorCidade? <==> Lower(searchType.GetOr("")) == "cidade")
    ensures (f.PorCpf? || f.PorCidade? || f.PorNome?) ==> Valor(f) == Trim(searchValue.GetOr(""))
    ensures f.PorNome? <==> (!f.Todos? &&
      (Lower(searchType.GetOr("")) == "matricula" ==> TryParseInt32(Trim(searchValue.GetOr(""))).None?) &&
      (Lower(searchType.GetOr("")) == "sexo" ==> TryParseSexo(Trim(searchValue.GetOr(""))).None?) &&
      Lower(searchType.GetOr("")) != "cpf" && Lower(searchType.GetOr("")) != "cidade")
  {
    var tipo := Lower(searchType.GetOr(""));
    var valor := Trim(searchValue.GetOr(""));
    if IsBlank(tipo) || IsBlank(valor) then Todos
    else if tipo == "matricula" && TryParseInt32(valor).Some? then PorMatricula(TryParseInt32(valor).value)
    else if tipo == "cpf" then PorCpf(valor)
    else if tipo == "sexo" && TryParseSexo(valor).Some? then PorSexo(TryParseSexo(valor).value)
    else if tipo == "cidade" then PorCidade(valor)
    else PorNome(valor)
  }

  /** `AlunoController.Search`: `None` (back to the index) for a null or
      blank value; otherwise the value is used as typed. A null type takes
      the default arm, the name search. */
  function FiltroBusca(searchType: Option<string>, searchValue: Option<string>): (f: Option<Filtro>)
    ensures f.None? <==> IsNullOrWhiteSpace(searchValue)
    ensures f.Some? ==> !f.value.Todos? && !f.value.PorCidade?
    ensures f.Some? && f.value.PorMatricula? ==>
      searchType.Some? && Lower(searchType.value) == "matricula" && TryParseInt32(searchValue.value) == Some(f.value.matricula)
    ensures f.Some? && f.value.PorSexo? ==>
      searchType.Some? && Lower(searchType.value) == "sexo" && TryParseSexo(searchValue.value) == Some(f.value.sexo)
    ensures f.Some? ==> (f.value.PorCpf? <==> searchType.Some? && Lower(searchType.value) == "cpf")
    ensures f.Some? && (f.value.PorCpf? || f.value.PorNome?) ==> Valor(f.value) == searchValue.value
    ensures f.Some? && searchType.None? ==> f.value == PorNome(searchValue.value)
  {
    if IsNullOrWhiteSpace(searchValue) then None
    else
      var valor := searchValue.value;
      match searchType
      case None => Some(PorNome(valor))
      case Some(t) =>
        var tipo := Lower(t);
        if tipo == "matricula" && TryParseInt32(valor).Some? then Some(PorMatricula(TryParseInt32(valor).value))
        else if tipo == "cpf" then Some(PorCpf(valor))
        else if tipo == "sexo" && TryParseSexo(valor).Some? then Some(PorSexo(TryParseSexo(valor).value))
        else Some(PorNome(valor))
  }

  /** The report filter is insensitive to the letter case of the type, and
      feeding its own value back in selects the same again. */
  lemma FiltroRelatorioNormalised(t: string, v: Option<string>)
    ensures FiltroRelatorio(Some(Upper(t)), v) == FiltroRelatorio(Some(t), v)
    ensures var f := FiltroRelatorio(Some(t), v);
      (f.PorCpf? || f.PorCidade? || f.PorNome?) ==> FiltroRelatorio(Some(t), Some(Valor(f))) == f
  {
    LowerOfUpper(t);
    TrimIdempotent(v.GetOr(""));
  }

  /** A type spelled "cidade" in any letter case with a non-blank value
      selects by city with the trimmed value. */
  lemma FiltroRelatorioPorCidade(t: string, v: string)
    requires Lower(t) == "cidade" && !IsBlank(Trim(v))
    ensures FiltroRelatorio(Some(t), Some(v)) == PorCidade(Trim(v))
  {
    assert !IsWhiteSpace(Lower(t)[0]);
  }

  /** The type "nome" (any letter case) with a non-blank value searches
      names with the trimmed value. */
  lemma FiltroRelatorioPorNome(t: string, v: string)
    requires Lower(t) == "nome" && !IsBlank(Trim(v))
    ensures FiltroRelatorio(Some(t), Some(v)) == PorNome(Trim(v))
  {
    var l := Lower(t);
    assert l[0] == 'n' && !IsWhiteSpace(l[0]);
    assert l != "sexo" by {
      assert "sexo"[0] == 's';
    }
    assert l != "cpf" && l != "matricula" && l != "cidade";
  }

  /** The list of a nullable single result (`new[] { x }.Where(a => a != null)`). */
  function OptionList(x: Option<Aluno>): (r: seq<Aluno>)
    ensures |r| <= 1
    ensures x.None? <==> |r| == 0
    ensures x.Some? ==> r[0] == x.value
  {
    match x
    case None => []
    case Some(a) => [a]
  }

  /** The students a filter selects. `porCidade` is the controller's own
      meaning of the "cidade" type. */
  function Selecionar(db: Banco.Db, f: Filtro, porCidade: string -> seq<Aluno>): (r: seq<Aluno>)
    ensures f.Todos? ==> r == RepositorioAluno.GetAll(db.alunos)
    ensures f.PorMatricula? ==> |r| <= 1 && (|r| == 1 <==> Repo.Exists(db.alunos, f.matricula, RepositorioAluno.Matricula))
    ensures f.PorMatricula? ==> forall i | 0 <= i < |r| :: r[i].matricula == f.matricula
    ensures f.PorCpf? ==> |r| <= 1 && (|r| == 1 <==> exists i | 0 <= i < |db.alunos.rows| :: db.alunos.rows[i].cpf == Some(f.cpf))
    ensures f.PorCpf? ==> forall i | 0 <= i < |r| :: r[i].cpf == Some(f.cpf)
    ensures f.PorSexo? ==> forall i | 0 <= i < |r| :: r[i].sexo == f.sexo
    ensures f.PorSexo? ==> forall i | 0 <= i < |db.alunos.rows| && db.alunos.rows[i].sexo == f.sexo ::
      RepositorioAluno.MapFromReader(db.alunos.rows[i]) in r
    ensures f.PorMatricula? || f.PorCpf? || f.PorSexo? ==> forall i | 0 <= i < |r| :: r[i] in RepositorioAluno.GetAll(db.alunos)
    ensures f.PorCidade? ==> r == porCidade(f.cidade)
    ensures f.PorNome? ==> r == RepositorioAluno.GetByConteudoNoNome(db.alunos, db.cidades, f.nome)
  {
    match f
    case Todos => RepositorioAluno.GetAll(db.alunos)
    case PorMatricula(m) => OptionList(RepositorioAluno.GetByMatricula(db.alunos, m))
    case PorCpf(c) => OptionList(RepositorioAluno.GetByCPF(db.alunos, c))
    case PorSexo(s) => RepositorioAluno.GetBySexo(db.alunos, s)
    case PorCidade(v) => porCidade(v)
    case PorNome(v) => RepositorioAluno.GetByConteudoNoNome(db.alunos, db.cidades, v)
  }

  /** A name search selects exactly the joined rows whose name contains the
      value, ignoring case. */
  lemma SelecionarPorNome(db: Banco.Db, v: string, porCidade: string -> seq<Aluno>, a: Aluno)
    ensures a in Selecionar(db, PorNome(v), porCidade) <==>
      exists i | 0 <= i < |db.alunos.rows| ::
        ContainingIgnoreCase(db.alunos.rows[i].nome, v) && a == RepositorioAluno.ComCidade(db.alunos.rows[i], db.cidades)
  {
    RepositorioAluno.GetByConteudoNoNomeMembers(db.alunos, db.cidades, v, a);
  }

  /** `PreencherCidade`: a student with a city code that names a stored
      city gets that city's name and UF (null stays null); any other
      student is returned as it is. Nothing else changes. */
  function PreencherCidade(cidades: Banco.TabelaCidades, a: Aluno): (r: Aluno)
    ensures r.(cidadeNome := a.cidadeNome, uf := a.uf) == a
    ensures a.cidadeCodigo.None? || !Repo.Exists(cidades, a.cidadeCodigo.value, Codigo) ==> r == a
    ensures a.cidadeCodigo.Some? && Repo.Exists(cidades, a.cidadeCodigo.value, Codigo) ==>
      exists i | 0 <= i < |cidades.rows| :: cidades.rows[i].codigo == a.cidadeCodigo.value &&
        r.cidadeNome == cidades.rows[i].nome && r.uf == cidades.rows[i].uf
  {
    match a.cidadeCodigo
    case None => a
    case Some(cod) =>
      match RepositorioCidade.GetByCodigo(cidades, cod)
      case None => a
      case Some(c) => a.(cidadeNome := c.nome, uf := c.uf)
  }

  /** Filling in twice is filling in once. */
  lemma PreencherCidadeIdempotent(cidades: Banco.TabelaCidades, a: Aluno)
    ensures PreencherCidade(cidades, PreencherCidade(cidades, a)) == PreencherCidade(cidades, a)
  {
  }

  /** On a stored row with a stored city, filling in agrees with the join
      of the name search, up to the join reading a null column as "". */
  lemma PreencherCidadeAgreesWithJoin(cidades: Banco.TabelaCidades, r: RepositorioAluno.AlunoRow, k: nat)
    requires Repo.Valid(cidades, Codigo) && k < |cidades.rows| && r.cidadeCodigo == Some(cidades.rows[k].codigo)
    ensures var p := PreencherCidade(cidades, RepositorioAluno.MapFromReader(r));
      var j := RepositorioAluno.ComCidade(r, cidades);
      p.cidadeNome == cidades.rows[k].nome && p.uf == cidades.rows[k].uf &&
      j.cidadeNome == Some(p.cidadeNome.GetOr("")) && j.uf == Some(p.uf.GetOr("")) &&
      RepositorioAluno.Persisted(p) == RepositorioAluno.Persisted(j)
  {
    Repo.GetByIdUnique(cidades, k, Codigo, RepositorioCidade.MapFromReader);
    RepositorioAluno.ComCidadeSpec(r, cidades, k);
  }

  /** Every student of a list filled in, in order. */
  function Enriquecer(cidades: Banco.TabelaCidades, alunos: seq<Aluno>): (r: seq<Aluno>)
    ensures |r| == |alunos|
    ensures forall i | 0 <= i < |alunos| :: r[i] == PreencherCidade(cidades, alunos[i])
  {
    seq(|alunos|, i requires 0 <= i < |alunos| => PreencherCidade(cidades, alunos[i]))
  }
}
