/** `CidadeController`: the decisions of the city pages. `ModelState.IsValid`
    arrives as the boolean `valido`. */
module CidadeController {
  import opened Wrappers
  import opened Text
  import opened Cidades
  import opened Validations
  import opened Banco
  import Repo = RepositorioAbstrato
  import RepositorioAluno
  import RepositorioCidade
  import Ordering

  /** `CidadeViewModel`: the fields a city form posts. */
  datatype CidadeModel = CidadeModel(codigo: int, nome: Option<string>, uf: Option<string>)

  /** The city the POST actions write: name trimmed, UF upper-cased. */
  function Entidade(model: CidadeModel): Cidade {
    Cidade(model.codigo, TrimOpt(model.nome), UpperOpt(model.uf))
  }

  /** Upper-casing twice is upper-casing once. */
  lemma UpperOptIdempotent(s: Option<string>)
    ensures UpperOpt(UpperOpt(s)) == UpperOpt(s)
  {
    if s.Some? {
      UpperIsUpper(s.value);
    }
  }

  /** `Create` (POST): the form, then the name; an accepted form appends
      one city under the next key with its name trimmed (3 to 100
      code units) and its UF upper-cased. A rejection changes nothing. */
  function Create(t: RepositorioCidade.TabelaCidades, model: CidadeModel, valido: bool): (r: Efeito<RepositorioCidade.TabelaCidades>)
    ensures r.desfecho.Sucesso? <==> valido && ValidarNome(model.nome)
    ensures r.desfecho == Falha(ModeloInvalido) <==> !valido
    ensures r.desfecho == Falha(NomeInvalido) <==> valido && !ValidarNome(model.nome)
    ensures r.desfecho.Falha? ==> r.tabela == t
    ensures r.desfecho.Sucesso? ==>
      |r.tabela.rows| == |t.rows| + 1 && r.tabela.rows[..|t.rows|] == t.rows &&
      r.tabela.rows[|t.rows|] == Cidade(t.nextKey, TrimOpt(model.nome), UpperOpt(model.uf)) &&
      3 <= Utf16Length(r.tabela.rows[|t.rows|].nome.value) <= 100
  {
    if !valido then Efeito(t, Falha(ModeloInvalido))
    else if !ValidarNome(model.nome) then Efeito(t, Falha(NomeInvalido))
    else
      UpperOptIdempotent(model.uf);
      TrimIdempotent(model.nome.value);
      var t' := RepositorioCidade.Add(t, Entidade(model));
      assert t'.rows[|t.rows|] == RepositorioCidade.InsertRow(Entidade(model), t.nextKey);
      Efeito(t', Sucesso)
  }

  /** After a successful `Create` the new key reads back as the city, other
      keys read as before, and keys stay unique. */
  lemma CreateSpec(t: RepositorioCidade.TabelaCidades, model: CidadeModel, valido: bool, k: int)
    requires Repo.Valid(t, Codigo)
    ensures var r := Create(t, model, valido);
      Repo.Valid(r.tabela, Codigo) &&
      (r.desfecho.Sucesso? ==>
        RepositorioCidade.GetByCodigo(r.tabela, t.nextKey) == Some(Cidade(t.nextKey, TrimOpt(model.nome), UpperOpt(model.uf))) &&
        (k != t.nextKey ==> RepositorioCidade.GetByCodigo(r.tabela, k) == RepositorioCidade.GetByCodigo(t, k)))
  {
    if valido && ValidarNome(model.nome) {
      RepositorioCidade.AddSpec(t, Entidade(model), k);
      UpperOptIdempotent(model.uf);
    }
  }

  /** `Edit` (POST): a form whose key differs from the route's is "not
      found"; otherwise the checks of `Create`, and an accepted form
      rewrites the city with that key (none, if it is gone, which still
      reports success). */
  function Edit(t: RepositorioCidade.TabelaCidades, id: int, model: CidadeModel, valido: bool): (r: Efeito<RepositorioCidade.TabelaCidades>)
    ensures id != model.codigo ==> r == Efeito(t, Falha(NaoEncontrado))
    ensures r.desfecho.Sucesso? <==> id == model.codigo && valido && ValidarNome(model.nome)
    ensures r.desfecho.Falha? ==> r.tabela == t
    ensures r.desfecho.Sucesso? ==>
      |r.tabela.rows| == |t.rows| && r.tabela.nextKey == t.nextKey &&
      forall i | 0 <= i < |t.rows| ::
        r.tabela.rows[i] == (if t.rows[i].codigo == id then Cidade(id, TrimOpt(model.nome), UpperOpt(model.uf)) else t.rows[i])
  {
    if id != model.codigo then Efeito(t, Falha(NaoEncontrado))
    else if !valido then Efeito(t, Falha(ModeloInvalido))
    else if !ValidarNome(model.nome) then Efeito(t, Falha(NomeInvalido))
    else
      UpperOptIdempotent(model.uf);
      Efeito(RepositorioCidade.Update(t, Entidade(model)), Sucesso)
  }

  /** After a successful `Edit` the city reads back as the form (if it was
      stored), an absent city leaves the table as it was, and other keys
      read as before. */
  lemma EditSpec(t: RepositorioCidade.TabelaCidades, id: int, model: CidadeModel, valido: bool, k: int)
    requires Repo.Valid(t, Codigo)
    ensures var r := Edit(t, id, model, valido);
      Repo.Valid(r.tabela, Codigo) &&
      (r.desfecho.Sucesso? && Repo.Exists(t, id, Codigo) ==>
        RepositorioCidade.GetByCodigo(r.tabela, id) == Some(Cidade(id, TrimOpt(model.nome), UpperOpt(model.uf)))) &&
      (r.desfecho.Sucesso? && !Repo.Exists(t, id, Codigo) ==> r.tabela == t) &&
      (k != id ==> RepositorioCidade.GetByCodigo(r.tabela, k) == RepositorioCidade.GetByCodigo(t, k))
  {
    if Edit(t, id, model, valido).desfecho.Sucesso? {
      RepositorioCidade.UpdateSpec(t, Entidade(model), k);
      UpperOptIdempotent(model.uf);
    }
  }

  /** Every stored city has a trimmed name of 3 to 100 code units and an
      upper-case (or null) UF: what `Create` and `Edit` write. */
  predicate Registros(t: RepositorioCidade.TabelaCidades) {
    && RepositorioCidade.UFsMaiusculas(t)
    && forall i | 0 <= i < |t.rows| ::
      t.rows[i].nome.Some? && Trim(t.rows[i].nome.value) == t.rows[i].nome.value && 3 <= Utf16Length(t.rows[i].nome.value) <= 100
  }

  /** The city written for an accepted form satisfies `Registros`. */
  lemma EntidadeRegistro(model: CidadeModel, k: int)
    requires ValidarNome(model.nome)
    ensures Registros(Repo.Table([Cidade(k, TrimOpt(model.nome), UpperOpt(model.uf))], 0))
  {
    TrimIdempotent(model.nome.value);
  }

  lemma CreateKeepsRegistros(t: RepositorioCidade.TabelaCidades, model: CidadeModel, valido: bool)
    requires Registros(t)
    ensures Registros(Create(t, model, valido).tabela)
  {
    var r := Create(t, model, valido);
    if r.desfecho.Sucesso? {
      var novo := Repo.Table([Cidade(t.nextKey, TrimOpt(model.nome), UpperOpt(model.uf))], 0);
      EntidadeRegistro(model, t.nextKey);
      var rows := r.tabela.rows;
      forall i | 0 <= i < |rows|
        ensures rows[i].uf.Some? ==> IsUpper(rows[i].uf.value)
        ensures rows[i].nome.Some? && Trim(rows[i].nome.value) == rows[i].nome.value && 3 <= Utf16Length(rows[i].nome.value) <= 100
      {
        if i < |t.rows| {
          assert rows[i] == t.rows[i];
        } else {
          assert rows[i] == novo.rows[0];
        }
      }
    }
  }

  lemma EditKeepsRegistros(t: RepositorioCidade.TabelaCidades, id: int, model: CidadeModel, valido: bool)
    requires Registros(t)
    ensures Registros(Edit(t, id, model, valido).tabela)
  {
    var r := Edit(t, id, model, valido);
    if r.desfecho.Sucesso? {
      var novo := Repo.Table([Cidade(id, TrimOpt(model.nome), UpperOpt(model.uf))], 0);
      EntidadeRegistro(model, id);
      var rows := r.tabela.rows;
      forall i | 0 <= i < |rows|
        ensures rows[i].uf.Some? ==> IsUpper(rows[i].uf.value)
        ensures rows[i].nome.Some? && Trim(rows[i].nome.value) == rows[i].nome.value && 3 <= Utf16Length(rows[i].nome.value) <= 100
      {
        if t.rows[i].codigo == id {
          assert rows[i] == novo.rows[0];
        } else {
          assert rows[i] == t.rows[i];
        }
      }
    }
  }

  /** `Delete` (POST): a city some student still names is kept and the
      answer says so; otherwise the city is looked up and removed, or "not
      found". */
  function Delete(db: Db, id: int): (r: Efeito<Db>)
    ensures r.desfecho == Falha(CidadeComAlunos) <==> RepositorioCidade.CidadeTemAlunos(db.alunos, id)
    ensures r.desfecho.Sucesso? <==> !RepositorioCidade.CidadeTemAlunos(db.alunos, id) && Repo.Exists(db.cidades, id, Codigo)
    ensures r.desfecho == Falha(NaoEncontrado) <==> !RepositorioCidade.CidadeTemAlunos(db.alunos, id) && !Repo.Exists(db.cidades, id, Codigo)
    ensures r.desfecho.Falha? ==> r.tabela == db
    ensures r.tabela.alunos == db.alunos
    ensures r.desfecho.Sucesso? ==> !Repo.Exists(r.tabela.cidades, id, Codigo)
  {
    if RepositorioCidade.CidadeTemAlunos(db.alunos, id) then Efeito(db, Falha(CidadeComAlunos))
    else
      match RepositorioCidade.GetByCodigo(db.cidades, id)
      case Some(c) => Efeito(db.(cidades := RepositorioCidade.Remove(db.cidades, c)), Sucesso)
      case None => Efeito(db, Falha(NaoEncontrado))
  }

  /** `Delete` never leaves a student naming a city that is gone, keeps
      both tables' keys unique, and keeps every other city. */
  lemma DeleteKeepsReferencias(db: Db, id: int, k: int)
    requires Banco.Valid(db) && Referencias(db)
    ensures Banco.Valid(Delete(db, id).tabela) && Referencias(Delete(db, id).tabela)
    ensures k != id ==> RepositorioCidade.GetByCodigo(Delete(db, id).tabela.cidades, k) == RepositorioCidade.GetByCodigo(db.cidades, k)
  {
    var r := Delete(db, id);
    if r.desfecho.Sucesso? {
      var cidades := r.tabela.cidades;
      Repo.RemoveKeepsValid(db.cidades, id, Codigo);
      if k != id {
        Repo.RemoveKeepsOthers(db.cidades, id, Codigo, RepositorioCidade.MapFromReader, k);
      }
      forall i | 0 <= i < |db.alunos.rows| && db.alunos.rows[i].cidadeCodigo.Some?
        ensures Repo.Exists(cidades, db.alunos.rows[i].cidadeCodigo.value, Codigo)
      {
        var cod := db.alunos.rows[i].cidadeCodigo.value;
        assert cod != id;
        var j :| 0 <= j < |db.cidades.rows| && Codigo(db.cidades.rows[j]) == cod;
        assert db.cidades.rows[j] in cidades.rows;
      }
    } else {
      if k != id {
        assert r.tabela == db;
      }
    }
  }

  /** `Search`: `None` (back to the index) for a blank value; "uf" (any
      letter case) lists the cities of that UF, upper-cased; any other type
      searches names. */
  function Search(t: RepositorioCidade.TabelaCidades, searchType: Option<string>, searchValue: Option<string>): (r: Option<seq<Cidade>>)
    ensures r.None? <==> IsNullOrWhiteSpace(searchValue)
    ensures r.Some? && searchType.Some? && Lower(searchType.value) == "uf" ==>
      (forall i | 0 <= i < |r.value| :: r.value[i] in t.rows && r.value[i].uf == Some(Upper(searchValue.value))) &&
      (forall i | 0 <= i < |t.rows| && t.rows[i].uf == Some(Upper(searchValue.value)) :: t.rows[i] in r.value)
    ensures r.Some? && (searchType.None? || Lower(searchType.value) != "uf") ==>
      Ordering.SortedBy(r.value, RepositorioCidade.NomeKey) &&
      forall c :: c in r.value <==> c in t.rows && ContainingIgnoreCase(c.nome, searchValue.value)
  {
    if IsNullOrWhiteSpace(searchValue) then None
    else if searchType.Some? && Lower(searchType.value) == "uf" then
      UpperOptIdempotent(searchValue);
      Some(RepositorioCidade.GetByUF(t, Upper(searchValue.value)))
    else
      var r := RepositorioCidade.GetByNome(t, searchValue.value);
      assert forall c :: c in r <==> c in t.rows && ContainingIgnoreCase(c.nome, searchValue.value) by {
        forall c ensures c in r <==> c in t.rows && ContainingIgnoreCase(c.nome, searchValue.value) {
          RepositorioCidade.GetByNomeMembers(t, searchValue.value, c);
        }
      }
      Some(r)
  }

  /** A city written with any spelling of a UF is found by searching that
      UF in any letter case. */
  lemma SearchFindsCreated(t: RepositorioCidade.TabelaCidades, model: CidadeModel, tipo: string, consulta: string)
    requires ValidarNome(model.nome) && model.uf.Some? && Lower(tipo) == "uf"
    requires !IsBlank(consulta) && Upper(consulta) == Upper(model.uf.value)
    ensures Cidade(t.nextKey, TrimOpt(model.nome), UpperOpt(model.uf)) in Search(Create(t, model, true).tabela, Some(tipo), Some(consulta)).value
  {
    var t' := Create(t, model, true).tabela;
    UpperOptIdempotent(Some(consulta));
    assert t'.rows[|t.rows|].uf == Some(Upper(consulta));
  }
}
