/** `RepositorioCidade`: the city table (TBCIDADE) and its queries. A row is
    a `Cidade`; its UF is upper-cased on every write. */
module RepositorioCidade {
  import opened Wrappers
  import opened Text
  import opened Cidades
  import Repo = RepositorioAbstrato
  import RepositorioAluno
  import Seqs
  import Ordering

  type TabelaCidades = Repo.Table<Cidade>

  /** The INSERT binding: name as given, UF upper-cased (null stays null),
      key from the identity generator. */
  function InsertRow(c: Cidade, k: int): (r: Cidade)
    ensures Codigo(r) == k && r.nome == c.nome
    ensures r.uf == UpperOpt(c.uf)
  {
    Cidade(k, c.nome, UpperOpt(c.uf))
  }

  /** The UPDATE binding: the same two columns, keyed by `c.codigo`. */
  function UpdateRow(c: Cidade): (r: Cidade)
    ensures Codigo(r) == c.codigo && r.nome == c.nome
    ensures r.uf == UpperOpt(c.uf)
  {
    Cidade(c.codigo, c.nome, UpperOpt(c.uf))
  }

  /** `MapFromReader`: the three columns. */
  function MapFromReader(r: Cidade): Cidade {
    r
  }

  /** Every stored UF is null or upper-case. */
  predicate UFsMaiusculas(t: TabelaCidades) {
    forall i | 0 <= i < |t.rows| :: t.rows[i].uf.Some? ==> IsUpper(t.rows[i].uf.value)
  }

  function Add(t: TabelaCidades, c: Cidade): (t': TabelaCidades)
    ensures UFsMaiusculas(t) ==> UFsMaiusculas(t')
    ensures Repo.Count(t') == Repo.Count(t) + 1
  {
    var t' := Repo.Add(t, c, InsertRow);
    assert forall i | 0 <= i < |t.rows| :: t'.rows[i] == t.rows[i];
    t'
  }

  function Update(t: TabelaCidades, c: Cidade): (t': TabelaCidades)
    ensures UFsMaiusculas(t) ==> UFsMaiusculas(t')
    ensures Repo.Count(t') == Repo.Count(t)
  {
    Repo.Update(t, UpdateRow(c), Codigo)
  }

  function Remove(t: TabelaCidades, c: Cidade): (t': TabelaCidades)
    ensures UFsMaiusculas(t) ==> UFsMaiusculas(t')
    ensures !Repo.Exists(t', c.codigo, Codigo)
  {
    var t' := Repo.Remove(t, c.codigo, Codigo);
    assert forall i | 0 <= i < |t'.rows| :: t'.rows[i] in t.rows;
    t'
  }

  function GetAll(t: TabelaCidades): (r: seq<Cidade>)
    ensures |r| == |t.rows|
  {
    Repo.GetAll(t, MapFromReader)
  }

  /** `GetByCodigo`: `GetById`. */
  function GetByCodigo(t: TabelaCidades, codigo: int): (r: Option<Cidade>)
    ensures r.Some? <==> Repo.Exists(t, codigo, Codigo)
    ensures r.Some? ==> r.value in t.rows && r.value.codigo == codigo
  {
    Repo.GetById(t, codigo, Codigo, MapFromReader)
  }

  /** After `Add` the generated key reads back as the city with its UF
      upper-cased, other keys read as before, and keys stay unique. */
  lemma AddSpec(t: TabelaCidades, c: Cidade, k: int)
    requires Repo.Valid(t, Codigo)
    ensures Repo.Valid(Add(t, c), Codigo)
    ensures GetByCodigo(Add(t, c), t.nextKey) == Some(Cidade(t.nextKey, c.nome, UpperOpt(c.uf)))
    ensures k != t.nextKey ==> GetByCodigo(Add(t, c), k) == GetByCodigo(t, k)
  {
    Repo.AddSpec(t, c, InsertRow, Codigo, MapFromReader);
    if k != t.nextKey {
      Repo.AddKeepsOthers(t, c, InsertRow, Codigo, MapFromReader, k);
    }
  }

  /** `Update` of a stored city changes only its name and UF; of an absent
      one it changes nothing. */
  lemma UpdateSpec(t: TabelaCidades, c: Cidade, k: int)
    requires Repo.Valid(t, Codigo)
    ensures Repo.Valid(Update(t, c), Codigo)
    ensures Repo.Exists(t, c.codigo, Codigo) ==> GetByCodigo(Update(t, c), c.codigo) == Some(Cidade(c.codigo, c.nome, UpperOpt(c.uf)))
    ensures !Repo.Exists(t, c.codigo, Codigo) ==> Update(t, c) == t
    ensures k != c.codigo ==> GetByCodigo(Update(t, c), k) == GetByCodigo(t, k)
  {
    if Repo.Exists(t, c.codigo, Codigo) {
      Repo.UpdateSpec(t, UpdateRow(c), Codigo, MapFromReader);
    } else {
      Repo.UpdateAbsent(t, UpdateRow(c), Codigo);
    }
    if k != c.codigo {
      Repo.UpdateKeepsOthers(t, UpdateRow(c), Codigo, MapFromReader, k);
    }
  }

  function UFIs(uf: string): Cidade -> bool {
    (c: Cidade) => c.uf == Some(Upper(uf))
  }

  /** `GetByUF`: `Get(c => c.UF == uf.ToUpper())`, in storage order. */
  function GetByUF(t: TabelaCidades, uf: string): (r: seq<Cidade>)
    ensures forall i | 0 <= i < |r| :: r[i].uf == Some(Upper(uf)) && r[i] in t.rows
    ensures forall i | 0 <= i < |t.rows| && t.rows[i].uf == Some(Upper(uf)) :: t.rows[i] in r
  {
    var r := Repo.Get(t, MapFromReader, UFIs(uf));
    assert forall i | 0 <= i < |t.rows| :: Repo.GetAll(t, MapFromReader)[i] == t.rows[i];
    r
  }

  /** `GetByUF` lists the cities of the state once each, in storage order. */
  lemma GetByUFInOrder(a: seq<Cidade>, b: seq<Cidade>, n: int, uf: string, c: Cidade)
    ensures GetByUF(Repo.Table(a + b, n), uf) == GetByUF(Repo.Table(a, n), uf) + GetByUF(Repo.Table(b, n), uf)
    ensures GetByUF(Repo.Table([c], n), uf) == if c.uf == Some(Upper(uf)) then [c] else []
  {
    Repo.GetInOrder(a, b, n, MapFromReader, UFIs(uf), c);
  }

  /** A city written with UF `u` is found by `GetByUF` of any spelling of
      `u` that upper-cases alike, e.g. "sp" is found by "Sp". */
  lemma GetByUFFindsAdded(t: TabelaCidades, c: Cidade, u: string, consulta: string)
    requires c.uf == Some(u) && Upper(consulta) == Upper(u)
    ensures Cidade(t.nextKey, c.nome, c.uf.(value := Upper(u))) in GetByUF(Add(t, c), consulta)
  {
    var t' := Add(t, c);
    assert t'.rows[|t.rows|] == Cidade(t.nextKey, c.nome, Some(Upper(u)));
  }

  /** `GetByNome`: the cities whose name contains `nome` (case ignored),
      sorted by name. */
  function GetByNome(t: TabelaCidades, nome: string): (r: seq<Cidade>)
    ensures Ordering.SortedBy(r, NomeKey)
    ensures multiset(r) == multiset(Seqs.Filter(t.rows, (c: Cidade) => ContainingIgnoreCase(c.nome, nome)))
  {
    Ordering.SortBy(Seqs.Filter(t.rows, (c: Cidade) => ContainingIgnoreCase(c.nome, nome)), NomeKey)
  }

  /** The ORDER BY key of the name search. */
  function NomeKey(c: Cidade): string {
    c.nome.GetOr("")
  }

  /** A city is in `GetByNome` exactly when it is stored and its name
      contains `nome`. */
  lemma GetByNomeMembers(t: TabelaCidades, nome: string, c: Cidade)
    ensures c in GetByNome(t, nome) <==> c in t.rows && ContainingIgnoreCase(c.nome, nome)
  {
    var p := (x: Cidade) => ContainingIgnoreCase(x.nome, nome);
    var f := Seqs.Filter(t.rows, p);
    Seqs.FilterMembers(t.rows, p);
    var r := GetByNome(t, nome);
    assert c in r <==> c in multiset(r);
    assert c in f <==> c in multiset(f);
    if c in t.rows && p(c) {
      var i :| 0 <= i < |t.rows| && t.rows[i] == c;
    }
    if c in f {
      var i :| 0 <= i < |f| && f[i] == c;
    }
  }

  /** The UF column of every row, in storage order. */
  function UFColumn(t: TabelaCidades): (r: seq<Option<string>>)
    ensures |r| == |t.rows|
  {
    seq(|t.rows|, i requires 0 <= i < |t.rows| => t.rows[i].uf)
  }

  /** `GetUFs`: SELECT DISTINCT CIDUF ... ORDER BY CIDUF. A null UF is one of
      the distinct values and sorts first. */
  function GetUFs(t: TabelaCidades): (r: seq<Option<string>>)
    ensures Ordering.StrictlyAscending(r)
    ensures forall u :: u in r <==> exists i | 0 <= i < |t.rows| :: t.rows[i].uf == u
  {
    var r := Ordering.SortedDistinct(UFColumn(t));
    assert forall u :: u in r <==> u in Ordering.Elems(r);
    forall u ensures u in Ordering.Elems(UFColumn(t)) <==> exists i | 0 <= i < |t.rows| :: t.rows[i].uf == u {
      if u in Ordering.Elems(UFColumn(t)) {
        var i :| 0 <= i < |t.rows| && UFColumn(t)[i] == u;
      }
      if i :| 0 <= i < |t.rows| && t.rows[i].uf == u {
        assert UFColumn(t)[i] == u;
      }
    }
    r
  }

  /** The listed UFs are upper-case whenever the stored ones are. */
  lemma GetUFsUpper(t: TabelaCidades, k: nat)
    requires UFsMaiusculas(t) && k < |GetUFs(t)| && GetUFs(t)[k].Some?
    ensures IsUpper(GetUFs(t)[k].value)
  {
    var u := GetUFs(t)[k];
    assert u in GetUFs(t);
    var i :| 0 <= i < |t.rows| && t.rows[i].uf == u;
  }

  /** `CidadeTemAlunos`: SELECT 1 FROM TBALUNO WHERE ALUCODCIDADE = codigo
      returned a row. */
  function CidadeTemAlunos(alunos: RepositorioAluno.TabelaAlunos, codigo: int): (r: bool)
    ensures r <==> exists i | 0 <= i < |alunos.rows| :: alunos.rows[i].cidadeCodigo == Some(codigo)
  {
    Seqs.FirstWhere(alunos.rows, (a: RepositorioAluno.AlunoRow) => a.cidadeCodigo == Some(codigo)).Some?
  }

  /** A city has students exactly when `GetByCidade` of it is non-empty. */
  lemma CidadeTemAlunosSpec(alunos: RepositorioAluno.TabelaAlunos, codigo: int)
    ensures CidadeTemAlunos(alunos, codigo) <==> |RepositorioAluno.GetByCidade(alunos, codigo)| > 0
  {
    var g := RepositorioAluno.GetByCidade(alunos, codigo);
    if CidadeTemAlunos(alunos, codigo) {
      var i :| 0 <= i < |alunos.rows| && alunos.rows[i].cidadeCodigo == Some(codigo);
      assert RepositorioAluno.MapFromReader(alunos.rows[i]) in g;
    }
    if |g| > 0 {
      assert g[0] in RepositorioAluno.GetAll(alunos);
      var i :| 0 <= i < |alunos.rows| && RepositorioAluno.GetAll(alunos)[i] == g[0];
      assert alunos.rows[i].cidadeCodigo == g[0].cidadeCodigo;
    }
  }
}
