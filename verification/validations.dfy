/** The two field validators of the domain: the Brazilian CPF check-digit
    test and the name-length test. */
module Validations {
  import opened Wrappers
  import opened Text
  import opened Numbers
  import Seqs

  /** `Regex.Replace(cpf, "[^\d]", "")`: the ASCII digits of `s`, in order. */
  function DigitsOnly(s: string): (r: string)
    ensures AllDigits(r) && |r| <= |s|
    ensures forall i | 0 <= i < |s| && IsDigit(s[i]) :: s[i] in r
    ensures forall i | 0 <= i < |r| :: r[i] in s
  {
    Seqs.FilterMembers(s, IsDigit);
    Seqs.Filter(s, IsDigit)
  }

  /** Stripping non-digits twice is stripping them once. */
  lemma DigitsOnlyIdempotent(s: string)
    ensures DigitsOnly(DigitsOnly(s)) == DigitsOnly(s)
  {
    Seqs.FilterAll(DigitsOnly(s), IsDigit);
  }

  /** A string made of digits only is its own digit string. */
  lemma DigitsOnlyOfDigits(s: string)
    requires AllDigits(s)
    ensures DigitsOnly(s) == s
  {
    Seqs.FilterAll(s, IsDigit);
  }

  /** All characters equal the first one. */
  predicate AllSame(d: string) {
    forall i | 1 <= i < |d| :: d[i] == d[0]
  }

  /** Sum of `digit(d[i]) * (w - i)` over the positions of `d`. */
  function WeightedSum(d: string, w: int): int
    requires AllDigits(d)
  {
    if |d| == 0 then 0
    else WeightedSum(d[..|d| - 1], w) + DigitValue(d[|d| - 1]) * (w - (|d| - 1))
  }

  /** The mod-11 check digit of a weighted sum: remainder below 2 gives 0,
      otherwise 11 minus the remainder. */
  function CheckDigit(sum: nat): (c: nat)
    ensures c <= 9
    ensures c == 0 <==> sum % 11 < 2
    ensures c != 0 ==> (sum + c) % 11 == 0
  {
    var resto := sum % 11;
    if resto < 2 then 0 else 11 - resto
  }

  /** Weights from `w` down to `w - |d| + 1`, all positive, give a natural sum. */
  lemma {:induction false} WeightedSumNat(d: string, w: int)
    requires AllDigits(d) && w >= |d|
    ensures WeightedSum(d, w) >= 0
  {
    if |d| > 0 {
      WeightedSumNat(d[..|d| - 1], w);
    }
  }

  /** The first check digit: digits 1..9 weighted 10 down to 2. */
  function FirstCheckDigit(d: string): (c: nat)
    requires |d| >= 9 && AllDigits(d)
    ensures c <= 9
  {
    WeightedSumNat(d[..9], 10);
    CheckDigit(WeightedSum(d[..9], 10))
  }

  /** The second check digit: digits 1..10 weighted 11 down to 2. */
  function SecondCheckDigit(d: string): (c: nat)
    requires |d| >= 10 && AllDigits(d)
    ensures c <= 9
  {
    WeightedSumNat(d[..10], 11);
    CheckDigit(WeightedSum(d[..10], 11))
  }

  /** `Validations.ValidarCPF`. */
  function ValidarCPF(cpf: Option<string>): (r: bool)
    ensures IsNullOrWhiteSpace(cpf) ==> !r
    ensures r ==> cpf.Some? && |DigitsOnly(cpf.value)| == 11 && !AllSame(DigitsOnly(cpf.value))
  {
    if IsNullOrWhiteSpace(cpf) then false
    else
      var d := DigitsOnly(cpf.value);
      if |d| != 11 then false
      else if AllSame(d) then false
      else if DigitValue(d[9]) != FirstCheckDigit(d) then false
      else DigitValue(d[10]) == SecondCheckDigit(d)
  }

  /** A well-formed CPF digit string: eleven digits, not all equal, with both
      check digits right. */
  predicate IsCpfDigits(d: string) {
    && |d| == 11 && AllDigits(d) && !AllSame(d)
    && DigitValue(d[9]) == FirstCheckDigit(d)
    && DigitValue(d[10]) == SecondCheckDigit(d)
  }

  /** The validator accepts exactly the strings whose digits form a
      well-formed CPF; null and white space are rejected. */
  lemma ValidarCPFCharacterization(cpf: Option<string>)
    ensures ValidarCPF(cpf) <==> cpf.Some? && IsCpfDigits(DigitsOnly(cpf.value))
    ensures IsNullOrWhiteSpace(cpf) ==> !ValidarCPF(cpf)
  {
    if cpf.Some? && IsCpfDigits(DigitsOnly(cpf.value)) {
      var d := DigitsOnly(cpf.value);
      assert d[0] in cpf.value;
      var k :| 0 <= k < |cpf.value| && cpf.value[k] == d[0];
      assert !IsWhiteSpace(cpf.value[k]);
    }
  }

  /** Separators and every other non-digit are ignored. */
  lemma ValidarCPFIgnoresNonDigits(s: string)
    ensures ValidarCPF(Some(s)) == ValidarCPF(Some(DigitsOnly(s)))
  {
    ValidarCPFCharacterization(Some(s));
    ValidarCPFCharacterization(Some(DigitsOnly(s)));
    DigitsOnlyIdempotent(s);
  }

  /** A digit count other than 11, or eleven equal digits, is rejected. */
  lemma ValidarCPFShape(cpf: Option<string>)
    requires cpf.Some?
    requires |DigitsOnly(cpf.value)| != 11 || AllSame(DigitsOnly(cpf.value))
    ensures !ValidarCPF(cpf)
  {
    ValidarCPFCharacterization(cpf);
  }

  /** The first nine digits determine the last two: two accepted CPFs that
      agree on digits 1..9 have the same digit string. */
  lemma CheckDigitsDetermined(a: string, b: string)
    requires ValidarCPF(Some(a)) && ValidarCPF(Some(b))
    requires DigitsOnly(a)[..9] == DigitsOnly(b)[..9]
    ensures DigitsOnly(a) == DigitsOnly(b)
  {
    ValidarCPFCharacterization(Some(a));
    ValidarCPFCharacterization(Some(b));
    var da, db := DigitsOnly(a), DigitsOnly(b);
    assert da[9] == db[9] by {
      assert DigitValue(da[9]) == DigitValue(db[9]);
    }
    assert da[..10] == db[..10] by {
      assert da[..10] == da[..9] + [da[9]];
      assert db[..10] == db[..9] + [db[9]];
    }
    assert da[10] == db[10] by {
      assert DigitValue(da[10]) == DigitValue(db[10]);
    }
    assert da == da[..10] + [da[10]];
    assert db == db[..10] + [db[10]];
  }

  /** Changing only the tenth digit of an accepted CPF makes it rejected. */
  lemma FirstCheckDigitSensitive(d: string, c: char)
    requires AllDigits(d) && ValidarCPF(Some(d))
    requires IsDigit(c) && c != d[9]
    ensures !ValidarCPF(Some(d[9 := c]))
  {
    ValidarCPFCharacterization(Some(d));
    DigitsOnlyOfDigits(d);
    var e := d[9 := c];
    DigitsOnlyOfDigits(e);
    ValidarCPFCharacterization(Some(e));
    assert e[..9] == d[..9];
    assert DigitValue(c) != DigitValue(d[9]);
  }

  /** Changing only the eleventh digit of an accepted CPF makes it rejected. */
  lemma SecondCheckDigitSensitive(d: string, c: char)
    requires AllDigits(d) && ValidarCPF(Some(d))
    requires IsDigit(c) && c != d[10]
    ensures !ValidarCPF(Some(d[10 := c]))
  {
    ValidarCPFCharacterization(Some(d));
    DigitsOnlyOfDigits(d);
    var e := d[10 := c];
    DigitsOnlyOfDigits(e);
    ValidarCPFCharacterization(Some(e));
    assert e[..10] == d[..10];
    assert DigitValue(c) != DigitValue(d[10]);
  }

  /** The source's early-exit loop: are all eleven digits equal? */
  method TodosIguais(d: string) returns (todosIguais: bool)
    requires |d| == 11
    ensures todosIguais <==> AllSame(d)
  {
    todosIguais := true;
    var i := 1;
    while i < 11 && todosIguais
      invariant 1 <= i <= 11
      invariant todosIguais <==> forall j | 1 <= j < i :: d[j] == d[0]
    {
      if d[i] != d[0] {
        todosIguais := false;
      }
      i := i + 1;
    }
  }

  /** The source's accumulation loop over the first `n` digits, weights
      starting at `w`. */
  method Soma(d: string, n: nat, w: int) returns (soma: int)
    requires AllDigits(d) && n <= |d|
    ensures soma == WeightedSum(d[..n], w)
  {
    soma := 0;
    var i := 0;
    while i < n
      invariant 0 <= i <= n
      invariant soma == WeightedSum(d[..i], w)
    {
      assert d[..i + 1][..i] == d[..i];
      soma := soma + DigitValue(d[i]) * (w - i);
      i := i + 1;
    }
  }

  /** `ValidarCPF` as the source writes it, with its loops. */
  method ValidarCPFLoops(cpf: Option<string>) returns (ok: bool)
    ensures ok <==> cpf.Some? && IsCpfDigits(DigitsOnly(cpf.value))
  {
    ValidarCPFCharacterization(cpf);
    if IsNullOrWhiteSpace(cpf) {
      return false;
    }
    var d := DigitsOnly(cpf.value);
    if |d| != 11 {
      return false;
    }
    var iguais := TodosIguais(d);
    if iguais {
      return false;
    }
    var soma := Soma(d, 9, 10);
    WeightedSumNat(d[..9], 10);
    if DigitValue(d[9]) != CheckDigit(soma) {
      return false;
    }
    soma := Soma(d, 10, 11);
    WeightedSumNat(d[..10], 11);
    return DigitValue(d[10]) == CheckDigit(soma);
  }

  /** `Validations.ValidarNome`: at least 3 UTF-16 code units once trimmed,
      at most 100 counting the surrounding white space. */
  function ValidarNome(nome: Option<string>): (r: bool)
    ensures r <==> nome.Some? && Utf16Length(Trim(nome.value)) >= 3 && Utf16Length(nome.value) <= 100
    ensures r ==> 3 <= Utf16Length(Trim(nome.value)) <= 100
  {
    if IsNullOrWhiteSpace(nome) then false
    else
      Utf16LengthTrim(nome.value);
      Utf16Length(Trim(nome.value)) >= 3 && Utf16Length(nome.value) <= 100
  }

  /** Length is counted in code units: two characters, one of them above
      U+FFFF, make a valid name, while two characters below it do not. */
  lemma ValidarNomeCodeUnits(alto: char, baixo: char)
    requires '\U{10000}' <= alto && !IsWhiteSpace(baixo) && baixo <= '\U{FFFF}'
    ensures ValidarNome(Some([alto, baixo]))
    ensures !ValidarNome(Some([baixo, baixo]))
  {
    var s, t := [alto, baixo], [baixo, baixo];
    assert Utf16Length(s) == 3 by {
      assert s[..1] == [alto] && [alto][..0] == [];
    }
    assert Utf16Length(t) == 2 by {
      assert t[..1] == [baixo] && [baixo][..0] == [];
    }
    assert !IsWhiteSpace(alto);
    assert Trim(s) == s by {
      TrimIsSlice(s);
    }
    Utf16LengthTrim(t);
  }

  /** A well-formed CPF: the check digits of 529982247 are 2 and 5. */
  lemma ExampleCpf()
    ensures ValidarCPF(Some("52998224725"))
  {
    var d := "52998224725";
    assert AllDigits(d);
    var s1 := [50, 68, 140, 203, 251, 261, 269, 281, 295];
    var s2 := [55, 75, 156, 228, 284, 296, 306, 322, 343, 347];
    forall k | 1 <= k <= 9 ensures WeightedSum(d[..k], 10) == s1[k - 1] {
      PrefixSums(d, 10, s1, k);
    }
    forall k | 1 <= k <= 10 ensures WeightedSum(d[..k], 11) == s2[k - 1] {
      PrefixSums(d, 11, s2, k);
    }
    assert d[1] != d[0];
    assert IsCpfDigits(d);
    DigitsOnlyOfDigits(d);
    ValidarCPFCharacterization(Some(d));
  }

  /** The weighted sums of the prefixes of `d` are the running sums `ps`. */
  lemma {:induction false} PrefixSums(d: string, w: int, ps: seq<int>, k: nat)
    requires AllDigits(d) && 1 <= k <= |ps| <= |d|
    requires ps[0] == DigitValue(d[0]) * w
    requires forall j | 1 <= j < |ps| :: ps[j] == ps[j - 1] + DigitValue(d[j]) * (w - j)
    ensures WeightedSum(d[..k], w) == ps[k - 1]
  {
    var p := d[..k];
    assert p[..k - 1] == d[..k - 1];
    if k == 1 {
      assert p[..0] == [];
    } else {
      PrefixSums(d, w, ps, k - 1);
    }
  }

  /** Every string whose digits are those of the example is accepted. */
  lemma AcceptedByDigits(s: string)
    requires DigitsOnly(s) == "52998224725"
    ensures ValidarCPF(Some(s))
  {
    ExampleCpf();
    ValidarCPFIgnoresNonDigits(s);
  }

  /** The same CPF with a `;` among its digits is accepted: non-digits are
      ignored. */
  lemma ExampleCpfWithSemicolon(a: string)
    requires a == "529982247;25"
    ensures ValidarCPF(Some(a))
  {
    DigitsDropOne(a, 9);
    assert a[..9] + a[10..] == "52998224725";
    AcceptedByDigits(a);
  }

  /** Dropping the only non-digit. */
  lemma DigitsDropOne(a: string, k: nat)
    requires k < |a| && !IsDigit(a[k])
    requires forall i | 0 <= i < |a| && i != k :: IsDigit(a[i])
    ensures DigitsOnly(a) == a[..k] + a[k + 1..]
  {
    Seqs.FilterDropsOne(a, k, IsDigit);
  }

  /** The digits of a concatenation are the concatenated digits. */
  lemma DigitsConcat(x: string, y: string)
    ensures DigitsOnly(x + y) == DigitsOnly(x) + DigitsOnly(y)
  {
    Seqs.FilterConcat(x, y, IsDigit);
  }
}
