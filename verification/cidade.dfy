/** The city entity (`EM.Domain.Cidade`) and its value semantics: equality
    and hashing by (Nome, UF), ignoring the key. */
module Cidades {
  import opened Wrappers

  /** A city: key `codigo`, name and federative-unit code (both nullable). */
  datatype Cidade = Cidade(codigo: int, nome: Option<string>, uf: Option<string>)

  /** The primary key (`CIDCODIGO`). */
  function Codigo(c: Cidade): int {
    c.codigo
  }

  /** The argument of `Equals(object)`: null, a city, or an object of another
      runtime type. */
  datatype Obj = NullObj | CidadeObj(cidade: Cidade) | OtherObj

  /** `Cidade.Equals(object)`. */
  function Equals(c: Cidade, obj: Obj): (r: bool)
    ensures r ==> obj.CidadeObj? && ToString(c) == ToString(obj.cidade)
    ensures obj.CidadeObj? && obj.cidade.(codigo := c.codigo) == c ==> r
  {
    if obj.NullObj? || !obj.CidadeObj? then false
    else c.nome == obj.cidade.nome && c.uf == obj.cidade.uf
  }

  /** Equality ignores the key: it is equality of the (Nome, UF) pair, and
      null or a foreign type is never equal. */
  lemma EqualsIsPairEquality(a: Cidade, b: Cidade)
    ensures Equals(a, CidadeObj(b)) <==> (a.nome, a.uf) == (b.nome, b.uf)
    ensures Equals(a, CidadeObj(b.(codigo := a.codigo))) == Equals(a, CidadeObj(b))
    ensures !Equals(a, NullObj) && !Equals(a, OtherObj)
  {
  }

  /** `Equals` is an equivalence relation on cities. */
  lemma EqualsIsEquivalence(a: Cidade, b: Cidade, c: Cidade)
    ensures Equals(a, CidadeObj(a))
    ensures Equals(a, CidadeObj(b)) ==> Equals(b, CidadeObj(a))
    ensures Equals(a, CidadeObj(b)) && Equals(b, CidadeObj(c)) ==> Equals(a, CidadeObj(c))
  {
  }

  /** `Cidade.GetHashCode`: `HashCode.Combine(Nome, UF)`. The combiner is
      seeded per process, so it is a parameter. */
  function GetHashCode(c: Cidade, combine: (Option<string>, Option<string>) -> int): (h: int)
    ensures forall d: Cidade | Equals(c, CidadeObj(d)) :: h == combine(d.nome, d.uf)
  {
    combine(c.nome, c.uf)
  }

  /** Equal cities hash alike, whatever the combiner. */
  lemma EqualsImpliesSameHash(a: Cidade, b: Cidade, combine: (Option<string>, Option<string>) -> int)
    requires Equals(a, CidadeObj(b))
    ensures GetHashCode(a, combine) == GetHashCode(b, combine)
  {
  }

  /** `Cidade.ToString()`: `$"{Nome} - {UF}"`, a null part printing as "". */
  function ToString(c: Cidade): (r: string)
    ensures var n, u := c.nome.GetOr(""), c.uf.GetOr("");
      |r| == |n| + 3 + |u| && r[..|n|] == n && r[|n|..|n| + 3] == " - " && r[|n| + 3..] == u
  {
    c.nome.GetOr("") + " - " + c.uf.GetOr("")
  }
}
