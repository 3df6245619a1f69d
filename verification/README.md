# School records: validators, repositories and controller decisions

This project models the core of a small school-records web application.
The application keeps students (`Aluno`: registration number, name, CPF,
birth date, sex, city) and cities (`Cidade`: code, name, UF).

- **Domain.** The validators are the Brazilian CPF check-digit rule and the
  3–100-character name rule. There are value helpers for the database layer
  and the identity of a `Cidade`.
- **Repositories.** A generic keyed table carries the inherited
  add/remove/update/get/exists/count operations. The student and city tables
  add their own queries: CPF lookup, name search ordered by name, UF list,
  "city has students".
- **Controllers.** The decisions of the student, city and report controllers:
  - which validation failure wins;
  - what is written to the table;
  - which filter a report request selects;
  - how city data is filled in;
  - what the CSV and PDF reports contain.

The database is a pair of immutable tables (`Banco.Db`). Each table is a
sequence of rows plus the next identity value (`RepositorioAbstrato.Table`).
A write action returns the new table and its outcome (`Banco.Efeito`).
`ModelState.IsValid` is a boolean parameter. Nullable strings are
`Option<string>`.

Each repository write has a read-back partner lemma (`AddSpec`, `UpdateSpec`,
`RemoveSpec`). Each controller action states which table invariants it keeps:
- unique keys;
- trimmed names of legal length;
- normalised CPFs;
- upper-case UFs;
- student-to-city references.

Each serialiser (CSV field escaping, CPF formatting, date text, integer text)
has a parser that reads it back.

Where the code and the design text differ, the model follows the code:

- `ValidarNome` bounds the trimmed length from below but the *untrimmed*
  length from above (Validations.cs:56). Both lengths are .NET's
  `string.Length`, counted in UTF-16 code units (`Text.Utf16Length`): a
  character above U+FFFF counts twice.
- The PDF report's "cidade" filter does not look up cities. It runs the
  student-name search (RelatorioController.cs:46-47, whose `BuscarPorCidades`
  at :71-77 calls the name query). See `RelatorioController.CidadeIsNome`.
- The student `Search` action has no "cidade" case, so it falls through to
  the name search (`AlunoController.SearchPorCidadeIsPorNome`).
- A PDF cell shows an empty name as empty. Only a null name becomes "—".

## Model

| member | source | states |
|---|---|---|
| Validations.DigitsOnly | EM.Domain/Utilitarios/Validations.cs:13 | the stripped CPF holds only digits, keeps every digit of the input and nothing else |
| Validations.DigitsOnlyIdempotent | EM.Domain/Utilitarios/Validations.cs:13 | stripping non-digits twice is the same as once |
| Validations.ValidarCPF | EM.Domain/Utilitarios/Validations.cs:7-49 | null or white space is rejected; an accepted CPF has eleven digits, not all equal |
| Validations.CheckDigit | EM.Domain/Utilitarios/Validations.cs:34-35 | a check digit is 0 exactly when the remainder is below 2, and otherwise completes the sum to a multiple of 11 |
| Validations.ValidarCPFCharacterization | EM.Domain/Utilitarios/Validations.cs:7-49 | a CPF is valid iff it is present and its digits are 11, not all equal, with both check digits right; a null or blank CPF is invalid |
| Validations.ValidarCPFIgnoresNonDigits | EM.Domain/Utilitarios/Validations.cs:13 | punctuation does not change validity |
| Validations.ValidarCPFShape | EM.Domain/Utilitarios/Validations.cs:15-27 | a digit count other than 11, or eleven equal digits, is rejected |
| Validations.CheckDigitsDetermined | EM.Domain/Utilitarios/Validations.cs:29-48 | two valid CPFs with the same first nine digits are the same CPF |
| Validations.FirstCheckDigitSensitive | EM.Domain/Utilitarios/Validations.cs:37-38 | changing the tenth digit of a valid CPF makes it invalid |
| Validations.SecondCheckDigitSensitive | EM.Domain/Utilitarios/Validations.cs:48 | changing the eleventh digit of a valid CPF makes it invalid |
| Validations.TodosIguais | EM.Domain/Utilitarios/Validations.cs:19-24 | the early-exit loop reports true exactly when all eleven digits equal the first |
| Validations.Soma | EM.Domain/Utilitarios/Validations.cs:30-32 | the accumulation loop computes the weighted digit sum |
| Validations.ValidarCPFLoops | EM.Domain/Utilitarios/Validations.cs:7-49 | the loop-based validator accepts exactly the CPFs the characterisation describes |
| Validations.ValidarNome | EM.Domain/Utilitarios/Validations.cs:51-57 | a name is accepted iff present, at least 3 UTF-16 code units once trimmed, and at most 100 code units as given |
| Validations.ValidarNomeCodeUnits | EM.Domain/Utilitarios/Validations.cs:56 | two characters, one above U+FFFF, make an acceptable name (three code units); two below it do not |
| Validations.ExampleCpf | EM.Domain/Utilitarios/Validations.cs:7-49 | "52998224725" passes both check digits |
| Validations.AcceptedByDigits | EM.Domain/Utilitarios/Validations.cs:13 | any string whose digits are 52998224725 is accepted, whatever its separators |
| Validations.DigitsConcat | EM.Domain/Utilitarios/Validations.cs:13 | stripping distributes over concatenation |
| Uteis.ToBD | EM.Domain/Utilitarios/Uteis.cs:6-16 | the result is DBNull or the value unchanged, never null |
| Uteis.ToBDCharacterization | EM.Domain/Utilitarios/Uteis.cs:8-15 | DBNull exactly for null, blank strings, integer 0, DateTime.MinValue and DBNull itself |
| Uteis.ToBDIdempotent | EM.Domain/Utilitarios/Uteis.cs:6-16 | applying ToBD twice is the same as once |
| Uteis.ToObject | EM.Domain/Utilitarios/Uteis.cs:18-24 | null and DBNull give the default, anything else goes through the type conversion |
| Uteis.ToDateTimeNullable | EM.Domain/Utilitarios/Uteis.cs:26-32 | null and DBNull give no date, a date gives itself, other values fail conversion |
| Uteis.ToBDReadBack | EM.Domain/Utilitarios/Uteis.cs:6-32 | a value written through ToBD reads back: empty values as the default and as no date, other values through the conversion, a date other than MinValue as itself |
| DataReaderExtensions.ToIntNullable | EM.Repository/DataReaderExtensions.cs:3-12 | null and DBNull give null; a date never parses; any result is a 32-bit integer |
| DataReaderExtensions.ToIntNullableRoundTrip | EM.Repository/DataReaderExtensions.cs:8-9 | every 32-bit integer, as text or as an integer, reads back as itself |
| DataReaderExtensions.ToIntNullableOutOfRange | EM.Repository/DataReaderExtensions.cs:8-11 | the text of an integer outside 32 bits reads as null |
| DataReaderExtensions.ToIntNullableNonNumeric | EM.Repository/DataReaderExtensions.cs:8-11 | text without digits reads as null |
| DataReaderExtensions.ToStringSafe | EM.Repository/DataReaderExtensions.cs:14-17 | null gives the empty string, a string gives itself, an integer gives its decimal text |
| DataReaderExtensions.ToStringSafeReadsBack | EM.Repository/DataReaderExtensions.cs:3-17 | ToIntNullable reads a non-null value through the same text as ToStringSafe, so the safe text of an integer reads back as that integer |
| Dates.ClockText | EM.Repository/DataReaderExtensions.cs:8 | within a day the HH:mm:ss fields read back as the elapsed whole seconds |
| Dates.GeneralText | EM.Repository/DataReaderExtensions.cs:8 | a date's text under pt-BR is dd/MM/yyyy, a space, then HH:mm:ss, and always holds a '/' |
| Numbers.TryParseDecimalText | EM.Repository/DataReaderExtensions.cs:8 | int.TryParse reads back the decimal text of every 32-bit integer |
| Numbers.OutOfRangeRejected | EM.Repository/DataReaderExtensions.cs:8 | int.TryParse rejects the text of an integer outside 32 bits |
| Cidades.EqualsIsPairEquality | EM.Domain/Cidade.cs:11-18 | two cities are equal iff name and UF agree; the code is ignored; null and other types are unequal |
| Cidades.EqualsIsEquivalence | EM.Domain/Cidade.cs:11-18 | city equality is reflexive, symmetric and transitive |
| Cidades.EqualsImpliesSameHash | EM.Domain/Cidade.cs:20-23 | equal cities have equal hash codes |
| Cidades.Equals | EM.Domain/Cidade.cs:11-18 | equal cities print alike, and a copy that differs only in the code is equal |
| Cidades.GetHashCode | EM.Domain/Cidade.cs:20-23 | every city equal to this one gets the same combined hash |
| Cidades.ToString | EM.Domain/Cidade.cs:25-28 | the text is the name, " - ", then the UF |
| Alunos.TryParseSexo | EM.Web/Controllers/AlunoController.cs:138 | a sex value parses iff, trimmed, it equals a member name ignoring case |
| Alunos.TryParseSexoRoundTrip | EM.Web/Controllers/AlunoController.cs:138 | each member name, as written or upper-cased, parses back to that member |
| RepositorioAbstrato.Add | EM.Repository/RepositorioAbstrato.cs:16-25 | an insert appends one row and leaves the earlier rows as they were |
| RepositorioAbstrato.Remove | EM.Repository/RepositorioAbstrato.cs:27-36 | a delete leaves no row with the key and keeps every other row |
| RepositorioAbstrato.Update | EM.Repository/RepositorioAbstrato.cs:38-47 | an update replaces exactly the rows with the key and nothing else |
| RepositorioAbstrato.Get | EM.Repository/RepositorioAbstrato.cs:68-71 | Get returns exactly the mapped rows that satisfy the predicate |
| RepositorioAbstrato.GetInOrder | EM.Repository/RepositorioAbstrato.cs:68-71 | Get keeps storage order and multiplicity: rows stored in two runs are selected run by run, and one row yields its entity once exactly when the predicate holds |
| RepositorioAbstrato.GetAll | EM.Repository/RepositorioAbstrato.cs:49-66 | one entity per stored row, row i mapped to entity i |
| RepositorioAbstrato.Exists | EM.Repository/RepositorioAbstrato.cs:91-102 | some row has the key; its agreement with GetById is stated by QueriesAgree |
| RepositorioAbstrato.Count | EM.Repository/RepositorioAbstrato.cs:104-112 | the number of rows; its agreement with GetAll is stated by QueriesAgree |
| RepositorioAbstrato.GetById | EM.Repository/RepositorioAbstrato.cs:73-89 | a row is found iff some row has the key, and the result is the mapping of such a row |
| RepositorioAbstrato.QueriesAgree | EM.Repository/RepositorioAbstrato.cs:91-112 | Exists agrees with GetById, and Count with the length of GetAll |
| RepositorioAbstrato.GetByIdUnique | EM.Repository/RepositorioAbstrato.cs:73-89 | with unique keys, the lookup of a row's key returns that row |
| RepositorioAbstrato.AddSpec | EM.Repository/RepositorioAbstrato.cs:16-25 | an insert keeps keys unique, adds one to the count, and the new key reads back the inserted row |
| RepositorioAbstrato.AddKeepsOthers | EM.Repository/RepositorioAbstrato.cs:16-25 | an insert does not change the lookup of any other key |
| RepositorioAbstrato.RemoveSpec | EM.Repository/RepositorioAbstrato.cs:27-36 | deleting a stored key removes exactly that row and lowers the count by one |
| RepositorioAbstrato.RemoveAbsent | EM.Repository/RepositorioAbstrato.cs:27-36 | deleting an absent key changes nothing |
| RepositorioAbstrato.RemoveKeepsValid | EM.Repository/RepositorioAbstrato.cs:27-36 | a delete keeps keys unique |
| RepositorioAbstrato.RemoveKeepsOthers | EM.Repository/RepositorioAbstrato.cs:27-36 | a delete does not change the lookup of any other key |
| RepositorioAbstrato.UpdateSpec | EM.Repository/RepositorioAbstrato.cs:38-47 | updating a stored key keeps keys unique and the count, and the key reads back the new row |
| RepositorioAbstrato.UpdateAbsent | EM.Repository/RepositorioAbstrato.cs:38-47 | updating an absent key changes nothing |
| RepositorioAbstrato.UpdateKeepsOthers | EM.Repository/RepositorioAbstrato.cs:38-47 | an update does not change the lookup of any other key |
| RepositorioAluno.BindingsRoundTrip | EM.Repository/RepositorioAluno.cs:31-62 | the INSERT and UPDATE bindings read back through MapFromReader as the persisted columns |
| RepositorioAluno.MapFromReader | EM.Repository/RepositorioAluno.cs:51-62 | a read student has the row's key and no city name or UF |
| RepositorioAluno.InsertRow | EM.Repository/RepositorioAluno.cs:31-38 | the inserted row carries the generated key |
| RepositorioAluno.UpdateRow | EM.Repository/RepositorioAluno.cs:40-44 | the updated row keeps the student's own key |
| RepositorioAluno.Add | EM.Repository/RepositorioAluno.cs:13-18 | an insert adds one row |
| RepositorioAluno.Update | EM.Repository/RepositorioAluno.cs:20-29 | an update keeps the number of rows |
| RepositorioAluno.Remove | EM.Repository/RepositorioAluno.cs:46-49 | after a delete no row has the student's key |
| RepositorioAluno.ComCidade | EM.Repository/RepositorioAluno.cs:78-91 | the joined student is the read row plus a city name and UF, both present |
| RepositorioAluno.AddSpec | EM.Repository/RepositorioAluno.cs:13-18 | an inserted student reads back under the new key with its persisted columns; other keys are unchanged |
| RepositorioAluno.UpdateSpec | EM.Repository/RepositorioAluno.cs:20-29 | updating a stored student reads back the new columns; an absent one changes nothing; other keys are unchanged |
| RepositorioAluno.RemoveSpec | EM.Repository/RepositorioAluno.cs:46-49 | a deleted student is gone and other keys are unchanged |
| RepositorioAluno.GetByMatricula | EM.Repository/RepositorioAluno.cs:64-67 | a student is found iff the key is stored, and is the mapping of a stored row with that key |
| RepositorioAluno.GetByConteudoNoNome | EM.Repository/RepositorioAluno.cs:69-96 | the name search is ordered by name and has one entry per row whose name contains the text, ignoring case |
| RepositorioAluno.GetByConteudoNoNomeMembers | EM.Repository/RepositorioAluno.cs:77-92 | a student is listed iff it is the join of a stored row whose name contains the text |
| RepositorioAluno.ComCidadeSpec | EM.Repository/RepositorioAluno.cs:78-91 | the left join fills the matching city's name and UF, or empty strings when there is none |
| RepositorioAluno.GetByCPF | EM.Repository/RepositorioAluno.cs:98-114 | the CPF lookup returns a stored student with exactly that CPF, or null when none has it |
| RepositorioAluno.CPFExiste | EM.Repository/RepositorioAluno.cs:126-146 | true iff some row has the CPF and, when a key is excluded, a different key |
| RepositorioAluno.CPFExisteSpec | EM.Repository/RepositorioAluno.cs:126-146 | CPFExiste agrees with GetByCPF; excluding a key only narrows it, and turns true into false exactly when every row holding the CPF has that key |
| RepositorioAluno.GetBySexo | EM.Repository/RepositorioAluno.cs:116-119 | the result is exactly the students of that sex |
| RepositorioAluno.GetBySexoInOrder | EM.Repository/RepositorioAluno.cs:116-119 | the students of that sex are listed once each, in storage order |
| RepositorioAluno.GetByCidade | EM.Repository/RepositorioAluno.cs:121-124 | the result is exactly the students with that city code |
| RepositorioAluno.GetByCidadeInOrder | EM.Repository/RepositorioAluno.cs:121-124 | the students of that city are listed once each, in storage order |
| RepositorioCidade.Add | EM.Repository/RepositorioCidade.cs:13-31 | an insert keeps every stored UF upper-case and adds one to the count |
| RepositorioCidade.InsertRow | EM.Repository/RepositorioCidade.cs:27-31 | the inserted row carries the generated key, the name and the upper-cased UF |
| RepositorioCidade.UpdateRow | EM.Repository/RepositorioCidade.cs:33-37 | the updated row keeps the city's key and name and upper-cases the UF |
| RepositorioCidade.Update | EM.Repository/RepositorioCidade.cs:19-25 | an update keeps every stored UF upper-case and the number of rows |
| RepositorioCidade.Remove | EM.Repository/RepositorioCidade.cs:39-42 | a delete keeps every stored UF upper-case and leaves no row with the city's code |
| RepositorioCidade.AddSpec | EM.Repository/RepositorioCidade.cs:27-31 | an inserted city reads back under the new key with its UF upper-cased; other keys are unchanged |
| RepositorioCidade.UpdateSpec | EM.Repository/RepositorioCidade.cs:19-25 | an update of a stored city reads back the new name and upper-cased UF; an absent one changes nothing |
| RepositorioCidade.GetByCodigo | EM.Repository/RepositorioCidade.cs:54-57 | a city is found iff the code is stored, and carries that code |
| RepositorioCidade.GetByUF | EM.Repository/RepositorioCidade.cs:59-62 | the result is exactly the cities whose UF is the upper-cased argument |
| RepositorioCidade.GetByUFInOrder | EM.Repository/RepositorioCidade.cs:59-62 | the cities of that UF are listed once each, in storage order |
| RepositorioCidade.GetByUFFindsAdded | EM.Repository/RepositorioCidade.cs:59-62 | a city written with a UF is found by any spelling of it that upper-cases the same |
| RepositorioCidade.GetByNome | EM.Repository/RepositorioCidade.cs:64-82 | the name search is sorted by name and is a permutation of the matching cities |
| RepositorioCidade.GetByNomeMembers | EM.Repository/RepositorioCidade.cs:64-82 | a city is listed iff it is stored and its name contains the text, ignoring case |
| RepositorioCidade.GetUFs | EM.Repository/RepositorioCidade.cs:84-101 | the UF list is strictly ascending and holds exactly the stored UFs, null included |
| RepositorioCidade.GetUFsUpper | EM.Repository/RepositorioCidade.cs:84-101 | when stored UFs are upper-case, so is every listed UF |
| RepositorioCidade.CidadeTemAlunos | EM.Repository/RepositorioCidade.cs:103-114 | true iff some student row holds the city code |
| RepositorioCidade.CidadeTemAlunosSpec | EM.Repository/RepositorioCidade.cs:103-114 | CidadeTemAlunos agrees with GetByCidade being non-empty |
| Ordering.SortBy | EM.Repository/RepositorioCidade.cs:72 | ORDER BY yields a sorted permutation of its input |
| Ordering.SortedDistinct | EM.Repository/RepositorioCidade.cs:92 | SELECT DISTINCT ... ORDER BY yields a strictly ascending list with the same elements |
| Seqs.InFlatten | EM.Web/Controllers/AlunoController.cs:178-183 | an element is in the concatenation iff it is in one of the parts |
| Text.Trim | EM.Domain/Utilitarios/Validations.cs:56 | trimming yields no surrounding white space, and is empty iff the input is blank |
| Text.TrimIsSlice | EM.Domain/Utilitarios/Validations.cs:56 | the trimmed text is a slice of the input with only white space cut off both ends |
| Text.TrimIdempotent | EM.Web/Controllers/AlunoController.cs:89 | trimming twice is the same as once |
| Text.Utf16Length | EM.Domain/Utilitarios/Validations.cs:56 | `string.Length`: between one and two code units per character, zero only for the empty string |
| Text.Utf16LengthConcat | EM.Domain/Utilitarios/Validations.cs:56 | code units add up over a concatenation |
| Text.Utf16LengthTrim | EM.Domain/Utilitarios/Validations.cs:56 | trimming never adds code units, so the upper bound on the untrimmed name bounds the trimmed one |
| Text.RemoveChar | EM.Web/Controllers/AlunoController.cs:90 | Replace(c, "") removes every c and keeps every other character |
| Text.RemoveCharInOrder | EM.Web/Controllers/AlunoController.cs:90 | the kept characters stay in order and appear once each: removal works piecewise over a concatenation |
| RelatorioService.FormatarCpf | EM.Web/Services/RelatorioService.cs:153-157 | a null, blank or non-11-character CPF prints as "—", otherwise as the 3.3.3-2 grouping |
| RelatorioService.FormatarCpfKeepsDigits | EM.Web/Services/RelatorioService.cs:156 | formatting an 11-digit CPF keeps its digits and its validity |
| RelatorioService.NascimentoTexto | EM.Web/Services/RelatorioService.cs:79 | the default date prints as "—", others as dd/MM/yyyy whose parts read back as the date |
| RelatorioService.CelulasTexto | EM.Web/Services/RelatorioService.cs:77-83 | the name, city and UF cells show the value or "—" for null |
| RelatorioService.CelulasIdentify | EM.Web/Services/RelatorioService.cs:76-81 | the registration and sex cells parse back to the student's values |
| RelatorioService.Linha | EM.Web/Services/RelatorioService.cs:74-84 | each student gives seven one-column cells, in header order |
| RelatorioService.Celulas | EM.Web/Services/RelatorioService.cs:76-83 | one cell text per header column; their contents are stated by CelulasTexto and CelulasIdentify |
| RelatorioService.Corpo | EM.Web/Services/RelatorioService.cs:74-84 | seven one-column cells per student; CorpoCelula places each |
| RelatorioService.CorpoCelula | EM.Web/Services/RelatorioService.cs:74-84 | cell 7k+j of the body is column j of student k |
| RelatorioService.GerarRelatorioAlunosPDF | EM.Web/Services/RelatorioService.cs:53-85 | the fixed header, then either one seven-column placeholder or seven cells per student, always filling whole rows |
| RelatorioCsv.EscaparCsv | EM.Web/Controllers/AlunoController.cs:222-228 | null or empty gives empty; a value without ';', '"' or newline is unchanged; otherwise it is quoted with quotes doubled |
| RelatorioCsv.FieldRoundTrip | EM.Web/Controllers/AlunoController.cs:222-228 | an escaped field reads back as the value, null as empty |
| RelatorioCsv.SplitJoin | EM.Web/Controllers/AlunoController.cs:208-217 | joining escaped fields with ';' splits back into the same fields |
| RelatorioCsv.NascimentoCsv | EM.Web/Controllers/AlunoController.cs:206 | the birth date is empty exactly for the default date, and never needs quoting |
| RelatorioCsv.HeaderSplits | EM.Web/Controllers/AlunoController.cs:203 | the header line splits into the seven column names |
| RelatorioCsv.GerarCsv | EM.Web/Controllers/AlunoController.cs:200-220 | one header line plus one line per student |
| RelatorioCsv.GerarCsvLinha | EM.Web/Controllers/AlunoController.cs:204-217 | when CPF and UF need no quoting, each student's line splits back into its seven fields |
| RelatorioCsv.CsvFieldsIdentify | EM.Web/Controllers/AlunoController.cs:210-214 | the registration and sex fields parse back to the student's values |
| RelatorioCsv.CsvRowCpfDelimiter | EM.Web/Controllers/AlunoController.cs:212 | a CPF accepted by the validator that holds ';' splits the line into eight fields |
| RelatorioCsv.CsvRow | EM.Web/Controllers/AlunoController.cs:208-217 | when CPF and UF need no quoting, the written line is the seven values escaped and joined by ';' |
| RelatorioCsv.CsvRowEscaped | EM.Web/Controllers/AlunoController.cs:208-217 | the line with every text column escaped always splits back into the seven fields |
| RelatorioCsv.CsvRowEscapedAgrees | EM.Web/Controllers/AlunoController.cs:208-217 | when CPF and UF need no quoting, the escaped line is the line the code writes |
| Filtros.FiltroRelatorio | EM.Web/Controllers/AlunoController.cs:123-144 | the report filter lists everything iff the lower-cased type or the trimmed value is blank, and otherwise dispatches on the type with the number and sex guards |
| Filtros.FiltroRelatorioNormalised | EM.Web/Controllers/AlunoController.cs:123 | the type's letter case does not matter, and a filter's own value selects it again |
| Filtros.FiltroRelatorioPorCidade | EM.Web/Controllers/AlunoController.cs:140-141 | type "cidade" with a non-blank value selects the city search on the trimmed value |
| Filtros.FiltroRelatorioPorNome | EM.Web/Controllers/AlunoController.cs:142 | type "nome" with a non-blank value falls to the name search on the trimmed value |
| Filtros.FiltroBusca | EM.Web/Controllers/AlunoController.cs:392-406 | the search filter is absent iff the value is blank; it never searches by city; the value is used untrimmed |
| Filtros.Selecionar | EM.Web/Controllers/AlunoController.cs:132-143 | each filter gives its repository query: by key or CPF one stored student iff a row matches, by sex exactly the stored students of that sex, or the name search |
| Filtros.SelecionarPorNome | EM.Web/Controllers/AlunoController.cs:142 | the name filter lists exactly the joined students whose name contains the text |
| Filtros.PreencherCidade | EM.Web/Controllers/AlunoController.cs:186-198 | only city name and UF change, and only when the code names a stored city, which they are copied from |
| Filtros.PreencherCidadeAgreesWithJoin | EM.Web/Controllers/AlunoController.cs:186-198 | filling a read student gives the same city name and UF as the name search's join |
| Filtros.Enriquecer | EM.Web/Controllers/AlunoController.cs:147 | every student is filled in, in order |
| AlunoController.NormalizarCpf | EM.Web/Controllers/AlunoController.cs:90 | the stored CPF has no '.' or '-', keeps the digits and the validity of the input, and leaves a blank CPF as it was |
| AlunoController.Verificar | EM.Web/Controllers/AlunoController.cs:58-85 | the first failing check wins: invalid model, then invalid CPF, then a CPF already stored, then an invalid name |
| AlunoController.Create | EM.Web/Controllers/AlunoController.cs:56-112 | creation succeeds iff every check passes; a failure changes nothing; success appends one row with the trimmed name and normalised CPF |
| AlunoController.CreateSpec | EM.Web/Controllers/AlunoController.cs:87-98 | after a successful create the new key reads back the entity, and other keys are unchanged |
| AlunoController.CreateKeepsRegistros | EM.Web/Controllers/AlunoController.cs:56-112 | creation keeps every stored name trimmed and 3 to 100 UTF-16 code units long, and every stored CPF free of '.' and '-' and valid or blank |
| AlunoController.Edit | EM.Web/Controllers/AlunoController.cs:264-325 | a mismatched id is "not found" and changes nothing; otherwise the same checks as creation, excluding the student's own key from the duplicate check |
| AlunoController.EditSpec | EM.Web/Controllers/AlunoController.cs:299-311 | after a successful edit the key reads back the entity, and other keys are unchanged |
| AlunoController.EditKeepsRegistros | EM.Web/Controllers/AlunoController.cs:264-325 | editing keeps the same stored-row invariant: trimmed names of 3 to 100 code units, CPFs without separators and valid or blank |
| AlunoController.EditOwnCpf | EM.Web/Controllers/AlunoController.cs:284 | re-saving a student with their own stored CPF is never a duplicate when CPFs are unique |
| AlunoController.Delete | EM.Web/Controllers/AlunoController.cs:366-387 | deletion succeeds iff the key is stored, and afterwards the key is absent |
| AlunoController.DeleteSpec | EM.Web/Controllers/AlunoController.cs:366-387 | deletion keeps keys unique and leaves other keys unchanged |
| AlunoController.BuscarPorCidadesSound | EM.Web/Controllers/AlunoController.cs:173-184 | every listed student is stored and lives in a city whose name contains the text |
| AlunoController.BuscarPorCidadesComplete | EM.Web/Controllers/AlunoController.cs:173-184 | every stored student of such a city is listed |
| AlunoController.BuscarPorCidadesMembers | EM.Web/Controllers/AlunoController.cs:173-184 | membership in the city search is exactly "stored and in a matching city" |
| AlunoController.BuscarPorCidades | EM.Web/Controllers/AlunoController.cs:173-184 | no matching city means no students; membership is stated by BuscarPorCidadesMembers |
| AlunoController.SelecaoRelatorio | EM.Web/Controllers/AlunoController.cs:123-144 | a blank type or value selects every stored student, and type "cidade" the city search on the trimmed value |
| AlunoController.Report | EM.Web/Controllers/AlunoController.cs:116-171 | no data is a bad request; otherwise a format other than csv, in any case, is a bad request; otherwise one header plus one line per selected student |
| AlunoController.ReportLinhas | EM.Web/Controllers/AlunoController.cs:147-158 | line i+1 of the CSV splits back into the fields of selected student i after city fill-in |
| AlunoController.ReportIgnoresTypeCase | EM.Web/Controllers/AlunoController.cs:123 | the report does not depend on the letter case of the search type |
| AlunoController.ReportPorCidade | EM.Web/Controllers/AlunoController.cs:140-141 | the "cidade" report lists exactly the stored students of cities whose name contains the value |
| AlunoController.Search | EM.Web/Controllers/AlunoController.cs:390-431 | a blank value redirects, any other value searches; "cpf" yields one student iff some row has that CPF as typed, "matricula" (when it parses) one iff the key is stored, "sexo" (when it parses) exactly the students of that sex |
| AlunoController.CreateDuplicaCpf | EM.Web/Controllers/AlunoController.cs:71 | a formatted copy of a stored CPF passes the duplicate check, and two rows then store the same CPF |
| AlunoController.CreateCorrigido | EM.Web/Controllers/AlunoController.cs:56-112 | with the normalised CPF checked, a duplicate is reported iff the normalised CPF is already stored |
| AlunoController.CreateCorrigidoKeepsCpfsUnicos | EM.Web/Controllers/AlunoController.cs:71 | the corrected creation keeps non-blank CPFs unique |
| AlunoController.EditCorrigidoKeepsCpfsUnicos | EM.Web/Controllers/AlunoController.cs:284 | the corrected edit keeps non-blank CPFs unique |
| CidadeController.Create | EM.Web/Controllers/CidadeController.cs:42-75 | creation succeeds iff the model and name are valid; a failure changes nothing; success appends the trimmed name and upper-cased UF |
| CidadeController.CreateSpec | EM.Web/Controllers/CidadeController.cs:53-61 | after a successful create the new code reads back the city, and other codes are unchanged |
| CidadeController.CreateKeepsRegistros | EM.Web/Controllers/CidadeController.cs:42-75 | creation keeps every stored name trimmed and 3 to 100 UTF-16 code units long, and every UF upper-case |
| CidadeController.Edit | EM.Web/Controllers/CidadeController.cs:99-139 | a mismatched id is "not found"; otherwise it succeeds iff model and name are valid; failures change nothing |
| CidadeController.EditSpec | EM.Web/Controllers/CidadeController.cs:116-125 | after a successful edit the code reads back the new city, and other codes are unchanged |
| CidadeController.EditKeepsRegistros | EM.Web/Controllers/CidadeController.cs:99-139 | editing keeps the stored-city invariant |
| CidadeController.Delete | EM.Web/Controllers/CidadeController.cs:165-193 | a city with students is refused; otherwise a stored city is deleted and an absent one is "not found"; failures change nothing and students are never touched |
| CidadeController.DeleteKeepsReferencias | EM.Web/Controllers/CidadeController.cs:165-193 | deletion keeps keys unique and every student's city reference valid, and leaves other cities unchanged |
| CidadeController.Search | EM.Web/Controllers/CidadeController.cs:196-227 | a blank value redirects; "uf" in any case lists the cities of the upper-cased UF; anything else runs the name search |
| CidadeController.SearchFindsCreated | EM.Web/Controllers/CidadeController.cs:196-227 | a city just created is found by a UF search with any spelling of its UF |
| RelatorioController.AlunosPDF | EM.Web/Controllers/RelatorioController.cs:23-69 | the PDF table has the fixed header; no selection gives the placeholder; otherwise cell 7i+j is column j of selected student i after city fill-in |
| RelatorioController.CidadeIsNome | EM.Web/Controllers/RelatorioController.cs:46-47 | the PDF "cidade" filter lists the same as the "nome" filter, the student-name search |

## Left out

- Database plumbing is not modelled: connections, commands, readers, DBHelper and parameter binding. A table is an in-memory sequence of rows.
- Identity generation is modelled as a counter (`nextKey`) that only grows.
- SQL collation is not modelled. CONTAINING with UPPER is modelled as ASCII case-insensitive substring search, and ORDER BY as code-point order.
- Culture-sensitive `ToUpper`/`ToLower` are modelled on ASCII letters only.
- Dates are rendered as text only in the pt-BR culture that EM.Web/Program.cs:17-18 sets for requests. Other cultures are not modelled.
- RelatorioService.FormatarCpf: compares the number of characters with 11, where RelatorioService.cs:155 compares UTF-16 code units. The two differ only for a CPF holding a character above U+FFFF. For such a CPF, C# would cut a surrogate pair in half, and that text has no Dafny string form.
- Validations.ValidarCPF: strips ASCII digits only. .NET's `\d` also keeps other Unicode decimal digits, which `int.Parse` then rejects with an exception.
- Alunos.TryParseSexo: accepts member names only. `Enum.TryParse` also accepts numeric text and comma-separated names.
- Aluno.cs and EnumeradorSexo are not part of this model. The sex enumeration is taken to be exactly Masculino and Feminino.
- The view models are not part of this model either. The controllers' models carry the fields their actions read.
- PDF layout is not modelled: the A4 portrait page and its margins, fonts, colours, padding, the "ESCOLAR MANAGER / RELATÓRIO DE ALUNOS" title banner (RelatorioService.cs:33-42), the page-number footer and the fallback error PDF. Only the table's header and cells are.
- Exceptions and the HTTP 500 paths are not modelled, nor the catch blocks that add model errors.
- MVC plumbing is not modelled: views, ViewBag, TempData messages, redirects and anti-forgery tokens.
- The GET actions (Index, Create, Edit, Details) only read and render, and are not modelled.
- The wall clock is not modelled: neither the time stamp in the CSV file name (AlunoController.cs:159) nor the PDF's "Emitido em" paragraph (RelatorioService.cs:45-46), both read from `DateTime.Now`. The emission log (`RegistrarEmissao`) is not modelled either. None of these affects the data.
- Concurrency is not modelled. Each action is one atomic step on the tables.
- `Convert.ChangeType` and `Convert.ToDateTime` are parameters of `Uteis.ToObject` and `Uteis.ToDateTimeNullable`.
- RelatorioCsv.GerarCsv: its contract gives only the line count. The content of each line is stated by `GerarCsvCabecalho`, `GerarCsvLinha` and `CsvRowCpfDelimiter`.
- RepositorioAluno.GetByConteudoNoNome: states ordering and count. Membership is stated by `GetByConteudoNoNomeMembers`.

## Findings

| source | as written | input that shows it | evidently intended | confidence | as-written member | corrected member |
|---|---|---|---|---|---|---|
| EM.Web/Controllers/AlunoController.cs:71 | the duplicate check looks up the CPF as typed, but the row stores it without '.' and '-' (line 90); the same holds for Edit at line 284 | stored CPF "52998224725"; a new student with CPF "529.982.247-25" passes the check and is stored as "52998224725" again | check the normalised CPF, so two students never share a CPF | high (not executed) | AlunoController.CreateDuplicaCpf | AlunoController.CreateCorrigidoKeepsCpfsUnicos |
| EM.Web/Controllers/AlunoController.cs:212 | the CPF column is written without EscaparCsv, and the validator accepts any separator between digits | CPF "529982247;25" is valid and normalises to itself; its CSV line then has eight fields | escape the CPF like the other text columns | high (not executed) | RelatorioCsv.CsvRowCpfDelimiter | RelatorioCsv.CsvRowEscaped |
