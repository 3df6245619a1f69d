/** `RelatorioController`: the PDF report of students. It normalises the
    filter as the CSV report does, but its "cidade" type searches the
    students' own names, not their cities. */
module RelatorioController {
  import opened Wrappers
  import opened Text
  import opened Alunos
  import opened Banco
  import RepositorioAluno
  import Filtros
  import RelatorioService

  /** The PDF report's meaning of "cidade": the name search. */
  function PorConteudoNoNome(db: Db): string -> seq<Aluno> {
    (v: string) => RepositorioAluno.GetByConteudoNoNome(db.alunos, db.cidades, v)
  }

  /** The students `AlunosPDF` selects, before the city is filled in. */
  function SelecaoPdf(db: Db, searchType: Option<string>, searchValue: Option<string>): seq<Aluno> {
    Filtros.Selecionar(db, Filtros.FiltroRelatorio(searchType, searchValue), PorConteudoNoNome(db))
  }

  /** `AlunosPDF`: the selected students, each filled in with its city,
      laid out by `GerarRelatorioAlunosPDF`; an empty selection gives the
      one-cell "no students" table. */
  method AlunosPDF(db: Db, searchType: Option<string>, searchValue: Option<string>) returns (t: RelatorioService.Tabela)
    ensures t.cabecalho == RelatorioService.Cabecalho
    ensures |SelecaoPdf(db, searchType, searchValue)| == 0 ==> t.celulas == [RelatorioService.Celula(RelatorioService.SemAlunos, 7)]
    ensures var sel := SelecaoPdf(db, searchType, searchValue);
      |sel| > 0 ==> (|t.celulas| == 7 * |sel| &&
        forall i, j | 0 <= i < |sel| && 0 <= j < 7 ::
          t.celulas[7 * i + j] == RelatorioService.Celula(RelatorioService.Celulas(Filtros.PreencherCidade(db.cidades, sel[i]))[j], 1))
  {
    var alunos := Filtros.Enriquecer(db.cidades, SelecaoPdf(db, searchType, searchValue));
    t := RelatorioService.GerarRelatorioAlunosPDF(Some(alunos));
  }

  /** Asking the PDF report for a city lists the students whose own name
      contains the value, exactly as the name search does; the CSV report
      lists the students of the matching cities instead. */
  lemma CidadeIsNome(db: Db, tipo: string, nome: string, v: string)
    requires Lower(tipo) == "cidade" && Lower(nome) == "nome" && !IsBlank(Trim(v))
    ensures SelecaoPdf(db, Some(tipo), Some(v)) == RepositorioAluno.GetByConteudoNoNome(db.alunos, db.cidades, Trim(v))
    ensures SelecaoPdf(db, Some(tipo), Some(v)) == SelecaoPdf(db, Some(nome), Some(v))
  {
    Filtros.FiltroRelatorioPorCidade(tipo, v);
    Filtros.FiltroRelatorioPorNome(nome, v);
  }
}
