/** `RepositorioAluno`: the student table (TBALUNO) and its queries. A row
    holds the five persisted columns and the generated key; the city name and
    UF of an `Aluno` are not columns and only arrive through a join. */
module RepositorioAluno {
  import opened Wrappers
  import opened Text
  import opened Dates
  import opened Alunos
  import opened Cidades
  import Repo = RepositorioAbstrato
  import Seqs
  import Ordering

  /** A TBALUNO row. `sexo` is stored as the enumeration's code and read back
      through the same cast, so the row keeps the enumeration member. */
  datatype AlunoRow = AlunoRow(
    matricula: int,
    nome: Option<string>,
    cpf: Option<string>,
    nascimento: DateTime,
    sexo: Sexo,
    cidadeCodigo: Option<int>)

  type TabelaAlunos = Repo.Table<AlunoRow>
  type TabelaCidades = Repo.Table<Cidade>

  /** The primary key (`ALUMATRICULA`). */
  function Matricula(r: AlunoRow): int {
    r.matricula
  }

  /** The INSERT binding: the five columns from the entity; the key is the
      value the identity generator hands out, never the entity's own. */
  function InsertRow(a: Aluno, k: int): (r: AlunoRow)
    ensures Matricula(r) == k
  {
    AlunoRow(k, a.nome, a.cpf, a.nascimento, a.sexo, a.cidadeCodigo)
  }

  /** The UPDATE binding: the same five columns, keyed by the entity's
      `Matricula`. */
  function UpdateRow(a: Aluno): (r: AlunoRow)
    ensures Matricula(r) == a.matricula
  {
    AlunoRow(a.matricula, a.nome, a.cpf, a.nascimento, a.sexo, a.cidadeCodigo)
  }

  /** `MapFromReader`: the columns of a row; no city name or UF. */
  function MapFromReader(r: AlunoRow): (a: Aluno)
    ensures a.matricula == r.matricula && a.cidadeNome.None? && a.uf.None?
  {
    Aluno(r.matricula, r.nome, r.cpf, r.nascimento, r.sexo, r.cidadeCodigo, None, None)
  }

  /** What of an entity a write keeps: everything but the joined city fields. */
  function Persisted(a: Aluno): Aluno {
    a.(cidadeNome := None, uf := None)
  }

  /** Writing an entity and reading the row back gives the entity's persisted
      columns, under the generated key for an insert and under its own key
      for an update. */
  lemma BindingsRoundTrip(a: Aluno, k: int)
    ensures MapFromReader(InsertRow(a, k)) == Persisted(a.(matricula := k))
    ensures MapFromReader(UpdateRow(a)) == Persisted(a)
  {
  }

  /** `Add` (inherited): one INSERT with the student's columns. */
  function Add(t: TabelaAlunos, a: Aluno): (t': TabelaAlunos)
    ensures Repo.Count(t') == Repo.Count(t) + 1
  {
    Repo.Add(t, a, InsertRow)
  }

  /** `Update` (inherited): the row keyed by `a.matricula` rewritten. */
  function Update(t: TabelaAlunos, a: Aluno): (t': TabelaAlunos)
    ensures Repo.Count(t') == Repo.Count(t)
  {
    Repo.Update(t, UpdateRow(a), Matricula)
  }

  /** `Remove` (inherited): DELETE keyed by `a.matricula` only. */
  function Remove(t: TabelaAlunos, a: Aluno): (t': TabelaAlunos)
    ensures !Repo.Exists(t', a.matricula, Matricula)
  {
    Repo.Remove(t, a.matricula, Matricula)
  }

  function GetAll(t: TabelaAlunos): (r: seq<Aluno>)
    ensures |r| == |t.rows|
    ensures forall i | 0 <= i < |t.rows| :: r[i] == MapFromReader(t.rows[i])
  {
    Repo.GetAll(t, MapFromReader)
  }

  /** `GetByMatricula`: `GetById`. */
  function GetByMatricula(t: TabelaAlunos, m: int): (r: Option<Aluno>)
    ensures r.Some? <==> Repo.Exists(t, m, Matricula)
    ensures r.Some? ==> exists i | 0 <= i < |t.rows| :: t.rows[i].matricula == m && r.value == MapFromReader(t.rows[i])
  {
    Repo.GetById(t, m, Matricula, MapFromReader)
  }

  /** After `Add` the generated key reads back as the student's persisted
      columns, every other key reads as before, and keys stay unique. */
  lemma AddSpec(t: TabelaAlunos, a: Aluno, m: int)
    requires Repo.Valid(t, Matricula)
    ensures Repo.Valid(Add(t, a), Matricula)
    ensures !Repo.Exists(t, t.nextKey, Matricula)
    ensures GetByMatricula(Add(t, a), t.nextKey) == Some(Persisted(a.(matricula := t.nextKey)))
    ensures m != t.nextKey ==> GetByMatricula(Add(t, a), m) == GetByMatricula(t, m)
  {
    Repo.AddSpec(t, a, InsertRow, Matricula, MapFromReader);
    if m != t.nextKey {
      Repo.AddKeepsOthers(t, a, InsertRow, Matricula, MapFromReader, m);
    }
  }

  /** `Update` of a stored student overwrites its five columns and nothing
      else; of an absent one it changes nothing. */
  lemma UpdateSpec(t: TabelaAlunos, a: Aluno, m: int)
    requires Repo.Valid(t, Matricula)
    ensures Repo.Valid(Update(t, a), Matricula)
    ensures Repo.Exists(t, a.matricula, Matricula) ==> GetByMatricula(Update(t, a), a.matricula) == Some(Persisted(a))
    ensures !Repo.Exists(t, a.matricula, Matricula) ==> Update(t, a) == t
    ensures m != a.matricula ==> GetByMatricula(Update(t, a), m) == GetByMatricula(t, m)
  {
    if Repo.Exists(t, a.matricula, Matricula) {
      Repo.UpdateSpec(t, UpdateRow(a), Matricula, MapFromReader);
    } else {
      Repo.UpdateAbsent(t, UpdateRow(a), Matricula);
    }
    if m != a.matricula {
      Repo.UpdateKeepsOthers(t, UpdateRow(a), Matricula, MapFromReader, m);
    }
  }

  /** `Remove` deletes the student keyed by `a.matricula` and no other. */
  lemma RemoveSpec(t: TabelaAlunos, a: Aluno, m: int)
    requires Repo.Valid(t, Matricula)
    ensures Repo.Valid(Remove(t, a), Matricula)
    ensures GetByMatricula(Remove(t, a), a.matricula).None?
    ensures m != a.matricula ==> GetByMatricula(Remove(t, a), m) == GetByMatricula(t, m)
  {
    Repo.RemoveKeepsValid(t, a.matricula, Matricula);
    if m != a.matricula {
      Repo.RemoveKeepsOthers(t, a.matricula, Matricula, MapFromReader, m);
    }
  }

  /** The city a LEFT JOIN on `ALUCODCIDADE = CIDCODIGO` pairs a row with. */
  function CidadeDe(r: AlunoRow, cidades: TabelaCidades): (c: Option<Cidade>)
    ensures c.Some? ==> r.cidadeCodigo == Some(c.value.codigo)
    ensures c.None? ==> r.cidadeCodigo.None? || !Repo.Exists(cidades, r.cidadeCodigo.value, Codigo)
  {
    match r.cidadeCodigo
    case None => None
    case Some(k) => Repo.GetById(cidades, k, Codigo, (c: Cidade) => c)
  }

  /** One joined result row: `CIDNOME` and `CIDUF` read with `?? ""`, so a
      missing city or a null column both give "". */
  function ComCidade(r: AlunoRow, cidades: TabelaCidades): (a: Aluno)
    ensures Persisted(a) == MapFromReader(r)
    ensures a.cidadeNome.Some? && a.uf.Some?
  {
    var c := CidadeDe(r, cidades);
    MapFromReader(r).(
      cidadeNome := Some(if c.Some? then c.value.nome.GetOr("") else ""),
      uf := Some(if c.Some? then c.value.uf.GetOr("") else ""))
  }

  /** The ORDER BY key of the name search: the student's name. */
  function NomeKey(a: Aluno): string {
    a.nome.GetOr("")
  }

  /** The WHERE clause of the name search. */
  predicate NomeContem(r: AlunoRow, parte: string) {
    ContainingIgnoreCase(r.nome, parte)
  }

  function Joined(rows: seq<AlunoRow>, cidades: TabelaCidades): (r: seq<Aluno>)
    ensures |r| == |rows|
    ensures forall i | 0 <= i < |rows| :: r[i] == ComCidade(rows[i], cidades)
  {
    seq(|rows|, i requires 0 <= i < |rows| => ComCidade(rows[i], cidades))
  }

  /** `GetByConteudoNoNome`: the students whose name contains `parte` (case
      ignored), joined with their city and sorted by name. */
  function GetByConteudoNoNome(t: TabelaAlunos, cidades: TabelaCidades, parte: string): (r: seq<Aluno>)
    ensures Ordering.SortedBy(r, NomeKey)
    ensures |r| == Seqs.CountWhere(t.rows, (row: AlunoRow) => NomeContem(row, parte))
  {
    var rows := Seqs.Filter(t.rows, (row: AlunoRow) => NomeContem(row, parte));
    Ordering.SortBy(Joined(rows, cidades), NomeKey)
  }

  /** A student is in the name search exactly when it is the join of a
      stored row whose name contains `parte`. */
  lemma GetByConteudoNoNomeMembers(t: TabelaAlunos, cidades: TabelaCidades, parte: string, a: Aluno)
    ensures a in GetByConteudoNoNome(t, cidades, parte) <==>
      exists i | 0 <= i < |t.rows| :: NomeContem(t.rows[i], parte) && a == ComCidade(t.rows[i], cidades)
  {
    var p := (row: AlunoRow) => NomeContem(row, parte);
    var rows := Seqs.Filter(t.rows, p);
    var j := Joined(rows, cidades);
    var r := GetByConteudoNoNome(t, cidades, parte);
    Seqs.FilterMembers(t.rows, p);
    assert multiset(r) == multiset(j);
    assert a in r <==> a in j by {
      assert a in r <==> a in multiset(r);
      assert a in j <==> a in multiset(j);
    }
    if a in j {
      var i :| 0 <= i < |j| && j[i] == a;
      assert rows[i] in t.rows && p(rows[i]);
      var k :| 0 <= k < |t.rows| && t.rows[k] == rows[i];
      assert NomeContem(t.rows[k], parte) && a == ComCidade(t.rows[k], cidades);
    }
    if exists i | 0 <= i < |t.rows| :: NomeContem(t.rows[i], parte) && a == ComCidade(t.rows[i], cidades) {
      var k :| 0 <= k < |t.rows| && NomeContem(t.rows[k], parte) && a == ComCidade(t.rows[k], cidades);
      assert p(t.rows[k]);
      assert t.rows[k] in rows;
      var i :| 0 <= i < |rows| && rows[i] == t.rows[k];
      assert j[i] == a;
    }
  }

  /** The joined city fields name the student's city when it exists, and are
      "" when the row has no city code or the code matches no city. */
  lemma ComCidadeSpec(r: AlunoRow, cidades: TabelaCidades, k: nat)
    requires Repo.Valid(cidades, Codigo) && k < |cidades.rows|
    ensures r.cidadeCodigo == Some(cidades.rows[k].codigo) ==>
      ComCidade(r, cidades).cidadeNome == Some(cidades.rows[k].nome.GetOr("")) &&
      ComCidade(r, cidades).uf == Some(cidades.rows[k].uf.GetOr(""))
    ensures (r.cidadeCodigo.None? || !Repo.Exists(cidades, r.cidadeCodigo.value, Codigo)) ==>
      ComCidade(r, cidades).cidadeNome == Some("") && ComCidade(r, cidades).uf == Some("")
  {
    if r.cidadeCodigo == Some(cidades.rows[k].codigo) {
      Repo.GetByIdUnique(cidades, k, Codigo, (c: Cidade) => c);
    }
  }

  /** The CPF column equals `cpf` exactly, on a row other than `excluir`. */
  function CpfIgual(cpf: string, excluir: Option<int>): AlunoRow -> bool {
    (r: AlunoRow) => r.cpf == Some(cpf) && (excluir.None? || r.matricula != excluir.value)
  }

  /** `GetByCPF`: the first row whose CPF column equals the argument as given
      (no normalisation), or null. */
  function GetByCPF(t: TabelaAlunos, cpf: string): (r: Option<Aluno>)
    ensures r.Some? ==> r.value.cpf == Some(cpf) && exists i | 0 <= i < |t.rows| :: MapFromReader(t.rows[i]) == r.value
    ensures r.None? ==> forall i | 0 <= i < |t.rows| :: t.rows[i].cpf != Some(cpf)
  {
    match Seqs.FirstWhere(t.rows, CpfIgual(cpf, None))
    case Some(row) =>
      var i :| 0 <= i < |t.rows| && t.rows[i] == row;
      Some(MapFromReader(row))
    case None => None
  }

  /** `CPFExiste`: some row has exactly this CPF and, when `excluir` is
      given, a different `Matricula`. */
  function CPFExiste(t: TabelaAlunos, cpf: string, excluir: Option<int>): (r: bool)
    ensures r <==> exists i | 0 <= i < |t.rows| ::
      t.rows[i].cpf == Some(cpf) && (excluir.None? || t.rows[i].matricula != excluir.value)
  {
    var found := Seqs.FirstWhere(t.rows, CpfIgual(cpf, excluir));
    assert forall i | 0 <= i < |t.rows| :: (CpfIgual(cpf, excluir)(t.rows[i]) ==
      (t.rows[i].cpf == Some(cpf) && (excluir.None? || t.rows[i].matricula != excluir.value)));
    found.Some?
  }

  /** Without an exclusion, `CPFExiste` and `GetByCPF` agree; an exclusion
      can only turn a hit into a miss, and does so exactly when every row
      with that CPF is the excluded student. */
  lemma CPFExisteSpec(t: TabelaAlunos, cpf: string, m: int)
    ensures CPFExiste(t, cpf, None) <==> GetByCPF(t, cpf).Some?
    ensures CPFExiste(t, cpf, Some(m)) ==> CPFExiste(t, cpf, None)
    ensures CPFExiste(t, cpf, None) && !CPFExiste(t, cpf, Some(m)) <==>
      (CPFExiste(t, cpf, None) && forall i | 0 <= i < |t.rows| && t.rows[i].cpf == Some(cpf) :: t.rows[i].matricula == m)
  {
    if CPFExiste(t, cpf, None) {
      var i :| 0 <= i < |t.rows| && t.rows[i].cpf == Some(cpf);
      assert GetByCPF(t, cpf).Some?;
    }
  }

  function SexoIs(sexo: Sexo): Aluno -> bool {
    (a: Aluno) => a.sexo == sexo
  }

  /** `GetBySexo`: `Get(a => a.Sexo == sexo)`. */
  function GetBySexo(t: TabelaAlunos, sexo: Sexo): (r: seq<Aluno>)
    ensures forall i | 0 <= i < |r| :: r[i].sexo == sexo && r[i] in GetAll(t)
    ensures forall i | 0 <= i < |t.rows| && t.rows[i].sexo == sexo :: MapFromReader(t.rows[i]) in r
  {
    Repo.Get(t, MapFromReader, SexoIs(sexo))
  }

  /** `GetBySexo` lists the matching students once each, in storage order. */
  lemma GetBySexoInOrder(a: seq<AlunoRow>, b: seq<AlunoRow>, n: int, sexo: Sexo, row: AlunoRow)
    ensures GetBySexo(Repo.Table(a + b, n), sexo) == GetBySexo(Repo.Table(a, n), sexo) + GetBySexo(Repo.Table(b, n), sexo)
    ensures GetBySexo(Repo.Table([row], n), sexo) == if row.sexo == sexo then [MapFromReader(row)] else []
  {
    Repo.GetInOrder(a, b, n, MapFromReader, SexoIs(sexo), row);
  }

  function CidadeIs(codigo: int): Aluno -> bool {
    (a: Aluno) => a.cidadeCodigo == Some(codigo)
  }

  /** `GetByCidade`: `Get(a => a.CidadeCodigo == codigo)`; a null city code
      is never equal to a code. */
  function GetByCidade(t: TabelaAlunos, codigo: int): (r: seq<Aluno>)
    ensures forall i | 0 <= i < |r| :: r[i].cidadeCodigo == Some(codigo) && r[i] in GetAll(t)
    ensures forall i | 0 <= i < |t.rows| && t.rows[i].cidadeCodigo == Some(codigo) :: MapFromReader(t.rows[i]) in r
  {
    Repo.Get(t, MapFromReader, CidadeIs(codigo))
  }

  /** `GetByCidade` lists the students of the city once each, in storage order. */
  lemma GetByCidadeInOrder(a: seq<AlunoRow>, b: seq<AlunoRow>, n: int, codigo: int, row: AlunoRow)
    ensures GetByCidade(Repo.Table(a + b, n), codigo) == GetByCidade(Repo.Table(a, n), codigo) + GetByCidade(Repo.Table(b, n), codigo)
    ensures GetByCidade(Repo.Table([row], n), codigo) == if row.cidadeCodigo == Some(codigo) then [MapFromReader(row)] else []
  {
    Repo.GetInOrder(a, b, n, MapFromReader, CidadeIs(codigo), row);
  }
}
