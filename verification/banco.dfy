/** The store the controllers act on: the student and city tables, and the
    outcome of a write action. */
module Banco {
  import opened Wrappers
  import opened Cidades
  import Repo = RepositorioAbstrato
  import RepositorioAluno

  type TabelaAlunos = RepositorioAluno.TabelaAlunos
  type TabelaCidades = RepositorioAluno.TabelaCidades

  datatype Db = Db(alunos: TabelaAlunos, cidades: TabelaCidades)

  /** Both tables keep their keys unique. */
  predicate Valid(db: Db) {
    Repo.Valid(db.alunos, RepositorioAluno.Matricula) && Repo.Valid(db.cidades, Codigo)
  }

  /** Every city code a student holds names a stored city. */
  predicate Referencias(db: Db) {
    forall i | 0 <= i < |db.alunos.rows| && db.alunos.rows[i].cidadeCodigo.Some? ::
      Repo.Exists(db.cidades, db.alunos.rows[i].cidadeCodigo.value, Codigo)
  }

  /** Why a write action was turned down. `ModeloInvalido` stands for a
      failed `ModelState.IsValid`. */
  datatype Motivo = ModeloInvalido | CpfInvalido | CpfJaCadastrado | NomeInvalido | NaoEncontrado | CidadeComAlunos

  /** What a write action reports: success, or the first rejection met. */
  datatype Desfecho = Sucesso | Falha(motivo: Motivo)

  /** A write action's effect: the table after it and what it reports. */
  datatype Efeito<T> = Efeito(tabela: T, desfecho: Desfecho)
}
