/** The student entity (`EM.Domain.Aluno`) and its sex enumeration. The
    entity's own file is not part of this model; its shape is read off the
    repository and controllers that use it. */
module Alunos {
  import opened Wrappers
  import opened Text
  import opened Dates

  /** `EnumeradorSexo`: a closed two-variant enumeration. */
  datatype Sexo = Masculino | Feminino

  /** `EnumeradorSexo.ToString()`: the member name. */
  function SexoLabel(s: Sexo): string {
    match s
    case Masculino => "Masculino"
    case Feminino => "Feminino"
  }

  /** `Enum.TryParse<EnumeradorSexo>(value, ignoreCase: true, ...)` on member
      names: surrounding white space ignored, letters compared without case. */
  function TryParseSexo(value: string): (r: Option<Sexo>)
    ensures r.Some? ==> EqualsIgnoreCase(Trim(value), SexoLabel(r.value))
    ensures r.None? ==> forall s: Sexo :: !EqualsIgnoreCase(Trim(value), SexoLabel(s))
  {
    var v := Trim(value);
    if EqualsIgnoreCase(v, "Masculino") then Some(Masculino)
    else if EqualsIgnoreCase(v, "Feminino") then Some(Feminino)
    else None
  }

  /** Every label parses back to its member, in any letter case. */
  lemma TryParseSexoRoundTrip(s: Sexo, v: string)
    requires v == SexoLabel(s) || v == Upper(SexoLabel(s))
    ensures TryParseSexo(v) == Some(s)
  {
    var l := SexoLabel(s);
    UpperEqualsIgnoreCase(l);
    assert EqualsIgnoreCase(v, l);
    assert |v| == |l|;
    if v != l {
      assert v[0] == UpperChar(l[0]);
      assert v[|v| - 1] == UpperChar(l[|l| - 1]);
    }
    TrimUnchanged(v);
    match s
    case Masculino =>
      assert EqualsIgnoreCase(Trim(v), "Masculino");
    case Feminino =>
      assert |Trim(v)| == 8;
      assert EqualsIgnoreCase(Trim(v), "Feminino");
  }

  /** A student as the application passes it around: the persisted columns
      plus the transient city name and UF filled in by joins or lookups. */
  datatype Aluno = Aluno(
    matricula: int,
    nome: Option<string>,
    cpf: Option<string>,
    nascimento: DateTime,
    sexo: Sexo,
    cidadeCodigo: Option<int>,
    cidadeNome: Option<string>,
    uf: Option<string>)
}
