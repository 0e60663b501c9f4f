/**
 * The Brazilian company tax id (CNPJ) helpers of
 * src/etl/analysis/enrichment.py: `limpar_cnpj` (keep the digits, pad to
 * 14) and `validar_cnpj_matematicamente` (the two modulo-11 check digits).
 */
module Cnpj {
  import opened Wrappers
  import opened Text

  /** Length of a canonical CNPJ. */
  const Width: nat := 14

  /** Weights of the first check digit, over digits 1..12. */
  const Weights1: seq<int> := [5, 4, 3, 2, 9, 8, 7, 6, 5, 4, 3, 2]

  /** Weights of the second check digit, over digits 1..13. */
  const Weights2: seq<int> := [6, 5, 4, 3, 2, 9, 8, 7, 6, 5, 4, 3, 2]

  /** `limpar_cnpj`: a missing value gives the empty string; otherwise the
      ASCII digits of the value, left-padded with `'0'` to 14 characters. */
  function Limpar(valor: Option<string>): (r: string)
    ensures valor.None? ==> r == []
    ensures valor.Some? ==>
              var ds := Digits(valor.value);
              && |r| == (if |ds| < Width then Width else |ds|)
              && r[|r| - |ds|..] == ds
              && (forall k :: 0 <= k < |r| - |ds| ==> r[k] == '0')
    ensures AllDigits(r)
  {
    match valor
    case None => []
    case Some(s) => ZFill(Digits(s), Width)
  }

  /** `int(c)` for an ASCII digit. */
  function DigitValue(c: char): int {
    c as int - '0' as int
  }

  /** `sum(int(a) * b for a, b in zip(s, w))`: zip stops at the shorter. */
  function WeightedSum(s: string, w: seq<int>): int {
    if s == [] || w == [] then 0
    else Product(DigitValue(s[0]), w[0]) + WeightedSum(s[1..], w[1..])
  }

  function Product(a: int, b: int): int { a * b }

  /** A check digit from a weighted sum: 0 when the remainder modulo 11 is
      below 2, otherwise 11 minus the remainder. Always a single digit. */
  function CheckDigit(sum: int): (d: int)
    ensures 0 <= d <= 9
    ensures d == 0 <==> sum % 11 < 2
    ensures d != 0 ==> (sum + d) % 11 == 0
  {
    var resto := sum % 11;
    if resto < 2 then 0 else 11 - resto
  }

  /** `len(set(s)) == 1`: a non-empty string of one repeated character. */
  predicate AllSame(s: string) {
    s != [] && forall k :: 0 <= k < |s| ==> s[k] == s[0]
  }

  /** `validar_cnpj_matematicamente`: normalise, reject a wrong length or a
      repeated digit, then compare digit 13 and digit 14 with the check
      digits computed from the digits before them. */
  function Validar(valor: Option<string>): bool {
    var c := Limpar(valor);
    if |c| != Width || AllSame(c) then false
    else if DigitValue(c[12]) != CheckDigit(WeightedSum(c[..12], Weights1)) then false
    else DigitValue(c[13]) == CheckDigit(WeightedSum(c[..13], Weights2))
  }

  /** What a check digit is, independently of how it is computed: a single
      digit that makes the weighted sum a multiple of 11, or 0 when the
      remainder is 1 and no single digit can. */
  predicate IsCheckDigit(sum: int, d: int) {
    0 <= d <= 9 && ((sum + d) % 11 == 0 || (d == 0 && sum % 11 == 1))
  }

  /** The checksum of a normalised id: digit 13 is the check digit of the
      first 12 digits and digit 14 that of the first 13. */
  predicate ChecksumHolds(c: string)
    requires |c| == Width
  {
    && IsCheckDigit(WeightedSum(c[..12], Weights1), DigitValue(c[12]))
    && IsCheckDigit(WeightedSum(c[..13], Weights2), DigitValue(c[13]))
  }

  /** Every sum has exactly one check digit, and it is the one computed. */
  lemma CheckDigitIff(sum: int, d: int)
    ensures IsCheckDigit(sum, d) <==> d == CheckDigit(sum)
  {
    var r := sum % 11;
    assert (sum + d) % 11 == (r + d) % 11;
  }

  // ---------------------------------------------------------------------
  // Properties of limpar_cnpj
  // ---------------------------------------------------------------------

  /** A missing value normalises to the empty string, not to 14 zeros. */
  lemma LimparMissing()
    ensures Limpar(None) == []
    ensures Limpar(Some([])) == Repeat('0', Width)
  {
  }

  /** `limpar_cnpj` is idempotent on present values. */
  lemma LimparIdempotent(s: string)
    ensures Limpar(Some(Limpar(Some(s)))) == Limpar(Some(s))
  {
    var r := Limpar(Some(s));
    DigitsOfDigits(r);
  }

  // ---------------------------------------------------------------------
  // Properties of validar_cnpj_matematicamente
  // ---------------------------------------------------------------------

  /** The validator is true exactly when the normalised id has 14 digits,
      not all equal, and digits 13 and 14 are check digits in the sense of
      `IsCheckDigit`: each makes its weighted sum a multiple of 11, or is 0
      where no digit can. */
  lemma ValidarIff(valor: Option<string>)
    ensures var c := Limpar(valor);
            Validar(valor) <==> |c| == Width && !AllSame(c) && ChecksumHolds(c)
  {
    var c := Limpar(valor);
    if |c| == Width {
      CheckDigitIff(WeightedSum(c[..12], Weights1), DigitValue(c[12]));
      CheckDigitIff(WeightedSum(c[..13], Weights2), DigitValue(c[13]));
    }
  }

  /** A missing id, and any id that normalises to more than 14 digits or to
      one repeated digit, is invalid. */
  lemma ValidarRejects(valor: Option<string>)
    ensures valor.None? ==> !Validar(valor)
    ensures |Digits(valor.GetOr([]))| > Width ==> !Validar(valor)
    ensures AllSame(Limpar(valor)) ==> !Validar(valor)
  {
  }

  /** Zero digits weigh nothing, whatever the weights. */
  lemma {:induction false} WeightedSumOfZeros(s: string, w: seq<int>)
    requires forall k :: 0 <= k < |s| ==> s[k] == '0'
    ensures WeightedSum(s, w) == 0
  {
    if s != [] && w != [] {
      WeightedSumOfZeros(s[1..], w[1..]);
    }
  }

  /** Fourteen zeros satisfy both check-digit equations, so it is only the
      repeated-digit rule that rejects them. */
  lemma ZerosPassChecksumOnly()
    ensures ChecksumHolds(Repeat('0', Width))
    ensures !Validar(Some(Repeat('0', Width)))
  {
    var z := Repeat('0', Width);
    WeightedSumOfZeros(z[..12], Weights1);
    WeightedSumOfZeros(z[..13], Weights2);
    DigitsOfDigits(z);
  }

  /** The validator sees the id through `limpar_cnpj`, so validating the
      normalised key is the same as validating the raw value. */
  lemma {:induction false} ValidarOfKey(valor: Option<string>)
    ensures Validar(Some(Limpar(valor))) == Validar(valor)
  {
    match valor
    case None =>
      var z := Limpar(Some([]));
      assert |z| == Width && z[0] == '0' && z[1] == '0';
      assert AllSame(z);
    case Some(s) =>
      LimparIdempotent(s);
  }

  /** A 14-digit id is its own normal form. */
  lemma LimparOfCanonical(c: string)
    requires |c| == Width && AllDigits(c)
    ensures Limpar(Some(c)) == c
  {
    DigitsOfDigits(c);
  }

  /** For a 14-digit id the validator is the repeated-digit rule and the checksum. */
  lemma ValidarCanonical(c: string)
    requires |c| == Width && AllDigits(c)
    ensures Validar(Some(c)) <==> !AllSame(c) && ChecksumHolds(c)
  {
    LimparOfCanonical(c);
    ValidarIff(Some(c));
  }

  /** Digit 14 is determined by the 13 digits before it: two ids that
      agree on those and differ in digit 14 do not both pass the checksum. */
  lemma ChecksumLastDigit(c: string, c': string)
    requires |c| == Width && |c'| == Width && ChecksumHolds(c)
    requires c[..13] == c'[..13] && c[13] != c'[13]
    ensures !ChecksumHolds(c')
  {
    assert c[..12] == c[..13][..12] == c'[..13][..12] == c'[..12];
  }

  /** Digit 13 is determined by the 12 digits before it: two ids that
      agree on those and differ in digit 13 do not both pass the checksum. */
  lemma ChecksumFirstCheckDigit(c: string, c': string)
    requires |c| == Width && |c'| == Width && ChecksumHolds(c)
    requires c[..12] == c'[..12] && c[12] != c'[12]
    ensures !ChecksumHolds(c')
  {
  }

  /** A wrong last digit is detected: of two 14-digit ids that differ only
      in digit 14, at most one is valid. */
  lemma LastDigitChangeDetected(c: string, c': string)
    requires |c| == Width && |c'| == Width && AllDigits(c) && AllDigits(c')
    requires c[..13] == c'[..13] && c[13] != c'[13]
    requires Validar(Some(c))
    ensures !Validar(Some(c'))
  {
    ValidarCanonical(c);
    ChecksumLastDigit(c, c');
    ValidarCanonical(c');
  }

  /** A wrong 13th digit is detected: of two 14-digit ids that agree on
      the first 12 digits and differ in digit 13, at most one is valid. */
  lemma FirstCheckDigitChangeDetected(c: string, c': string)
    requires |c| == Width && |c'| == Width && AllDigits(c) && AllDigits(c')
    requires c[..12] == c'[..12] && c[12] != c'[12]
    requires Validar(Some(c))
    ensures !Validar(Some(c'))
  {
    ValidarCanonical(c);
    ChecksumFirstCheckDigit(c, c');
    ValidarCanonical(c');
  }

  /** The validator only sees the digits of its input. */
  lemma ValidarByDigits(a: string, b: string)
    requires Digits(a) == Digits(b)
    ensures Validar(Some(a)) == Validar(Some(b))
  {
  }

  // ---------------------------------------------------------------------
  // The reference id 11444777000161
  // ---------------------------------------------------------------------

  /** One term of a weighted sum, for a known digit `digit` and weight `weight`. */
  lemma WeightedSumStep(s: string, w: seq<int>, k: nat, digit: int, weight: int)
    requires k < |s| && k < |w| && DigitValue(s[k]) == digit && w[k] == weight
    ensures WeightedSum(s[k..], w[k..]) == digit * weight + WeightedSum(s[k + 1..], w[k + 1..])
  {
    assert s[k..][1..] == s[k + 1..];
    assert w[k..][1..] == w[k + 1..];
  }

  /** Four consecutive terms of a weighted sum, for known digits and weights. */
  lemma WeightedSumFour(s: string, w: seq<int>, k: nat, d0: int, d1: int, d2: int, d3: int, w0: int, w1: int, w2: int, w3: int)
    requires k + 4 <= |s| && k + 4 <= |w|
    requires DigitValue(s[k]) == d0 && DigitValue(s[k + 1]) == d1 && DigitValue(s[k + 2]) == d2 && DigitValue(s[k + 3]) == d3
    requires w[k] == w0 && w[k + 1] == w1 && w[k + 2] == w2 && w[k + 3] == w3
    ensures WeightedSum(s[k..], w[k..]) == d0 * w0 + d1 * w1 + d2 * w2 + d3 * w3 + WeightedSum(s[k + 4..], w[k + 4..])
  {
    WeightedSumStep(s, w, k, d0, w0);
    WeightedSumStep(s, w, k + 1, d1, w1);
    WeightedSumStep(s, w, k + 2, d2, w2);
    WeightedSumStep(s, w, k + 3, d3, w3);
  }

  /** The first weighted sum of `11444777000161`: 214, remainder 5, check digit 6. */
  lemma ReferenceSum1(s: string)
    requires |s| == 12 && s[0] == '1' && s[1] == '1' && s[2] == '4' && s[3] == '4' && s[4] == '4' && s[5] == '7' && s[6] == '7' && s[7] == '7' && s[8] == '0' && s[9] == '0' && s[10] == '0' && s[11] == '1'
    ensures WeightedSum(s, Weights1) == 214
  {
    assert WeightedSum(s[12..], Weights1[12..]) == 0;
    WeightedSumFour(s, Weights1, 8, 0, 0, 0, 1, 5, 4, 3, 2);
    WeightedSumFour(s, Weights1, 4, 4, 7, 7, 7, 9, 8, 7, 6);
    WeightedSumFour(s, Weights1, 0, 1, 1, 4, 4, 5, 4, 3, 2);
    assert s[0..] == s && Weights1[0..] == Weights1;
  }

  /** The second weighted sum of `11444777000161`: 230, remainder 10, check digit 1. */
  lemma ReferenceSum2(s: string)
    requires |s| == 13 && s[0] == '1' && s[1] == '1' && s[2] == '4' && s[3] == '4' && s[4] == '4' && s[5] == '7' && s[6] == '7' && s[7] == '7' && s[8] == '0' && s[9] == '0' && s[10] == '0' && s[11] == '1' && s[12] == '6'
    ensures WeightedSum(s, Weights2) == 230
  {
    assert WeightedSum(s[13..], Weights2[13..]) == 0;
    WeightedSumStep(s, Weights2, 12, 6, 2);
    WeightedSumFour(s, Weights2, 8, 0, 0, 0, 1, 6, 5, 4, 3);
    WeightedSumFour(s, Weights2, 4, 4, 7, 7, 7, 2, 9, 8, 7);
    WeightedSumFour(s, Weights2, 0, 1, 1, 4, 4, 6, 5, 4, 3);
    assert s[0..] == s && Weights2[0..] == Weights2;
  }

  /** Three consecutive characters of `11.444.777/0001-61`, whichever of
      them are digits. */
  lemma DigitsThree(f: string, k: nat, kept: string)
    requires k + 3 <= |f|
    requires kept == (if IsDigit(f[k]) then [f[k]] else []) + (if IsDigit(f[k + 1]) then [f[k + 1]] else []) + (if IsDigit(f[k + 2]) then [f[k + 2]] else [])
    ensures Digits(f[k..]) == kept + Digits(f[k + 3..])
  {
    assert f[k..][1..] == f[k + 1..];
    assert f[k + 1..][1..] == f[k + 2..];
    assert f[k + 2..][1..] == f[k + 3..];
    var d0 := if IsDigit(f[k]) then [f[k]] else [];
    var d1 := if IsDigit(f[k + 1]) then [f[k + 1]] else [];
    var d2 := if IsDigit(f[k + 2]) then [f[k + 2]] else [];
    assert Digits(f[k + 2..]) == d2 + Digits(f[k + 3..]);
    assert Digits(f[k + 1..]) == d1 + Digits(f[k + 2..]);
    assert Digits(f[k..]) == d0 + Digits(f[k + 1..]);
    assert d0 + (d1 + (d2 + Digits(f[k + 3..]))) == kept + Digits(f[k + 3..]);
  }

  /** Characters 9..17 of `11.444.777/0001-61`. */
  lemma ReferenceDigitsTail(f: string)
    requires |f| == 18 && f[9] == '7' && f[10] == '/' && f[11] == '0' && f[12] == '0' && f[13] == '0' && f[14] == '1' && f[15] == '-' && f[16] == '6' && f[17] == '1'
    ensures Digits(f[9..]) == [f[9], f[11], f[12], f[13], f[14], f[16], f[17]]
  {
    assert Digits(f[18..]) == [];
    DigitsThree(f, 15, [f[16], f[17]]);
    DigitsThree(f, 12, [f[12], f[13], f[14]]);
    DigitsThree(f, 9, [f[9], f[11]]);
  }

  /** Characters 0..8 of `11.444.777/0001-61`. */
  lemma ReferenceDigitsHead(f: string)
    requires |f| == 18 && f[0] == '1' && f[1] == '1' && f[2] == '.' && f[3] == '4' && f[4] == '4' && f[5] == '4' && f[6] == '.' && f[7] == '7' && f[8] == '7'
    ensures Digits(f) == [f[0], f[1], f[3], f[4], f[5], f[7], f[8]] + Digits(f[9..])
  {
    DigitsThree(f, 6, [f[7], f[8]]);
    DigitsThree(f, 3, [f[3], f[4], f[5]]);
    DigitsThree(f, 0, [f[0], f[1]]);
    assert f[0..] == f;
  }

  /** The digits of the formatted id `11.444.777/0001-61`. */
  lemma ReferenceDigits(f: string, v: string)
    requires |f| == 18 && f[0] == '1' && f[1] == '1' && f[2] == '.' && f[3] == '4' && f[4] == '4' && f[5] == '4' && f[6] == '.' && f[7] == '7' && f[8] == '7' && f[9] == '7' && f[10] == '/' && f[11] == '0' && f[12] == '0' && f[13] == '0' && f[14] == '1' && f[15] == '-' && f[16] == '6' && f[17] == '1'
    requires |v| == Width && v[0] == '1' && v[1] == '1' && v[2] == '4' && v[3] == '4' && v[4] == '4' && v[5] == '7' && v[6] == '7' && v[7] == '7' && v[8] == '0' && v[9] == '0' && v[10] == '0' && v[11] == '1' && v[12] == '6' && v[13] == '1'
    ensures Digits(f) == v
  {
    ReferenceDigitsTail(f);
    ReferenceDigitsHead(f);
    assert v == [f[0], f[1], f[3], f[4], f[5], f[7], f[8]] + [f[9], f[11], f[12], f[13], f[14], f[16], f[17]];
  }

  /** The id `11444777000161` satisfies both check-digit equations. */
  lemma ReferenceChecksum(c: string)
    requires |c| == Width && c[0] == '1' && c[1] == '1' && c[2] == '4' && c[3] == '4' && c[4] == '4' && c[5] == '7' && c[6] == '7' && c[7] == '7' && c[8] == '0' && c[9] == '0' && c[10] == '0' && c[11] == '1' && c[12] == '6' && c[13] == '1'
    ensures ChecksumHolds(c)
  {
    ReferenceSum1(c[..12]);
    ReferenceSum2(c[..13]);
  }

  /** The id `11444777000161` passes the validator. */
  lemma ReferenceValid(c: string)
    requires |c| == Width && c[0] == '1' && c[1] == '1' && c[2] == '4' && c[3] == '4' && c[4] == '4' && c[5] == '7' && c[6] == '7' && c[7] == '7' && c[8] == '0' && c[9] == '0' && c[10] == '0' && c[11] == '1' && c[12] == '6' && c[13] == '1'
    ensures Validar(Some(c))
  {
    ReferenceChecksum(c);
    ValidarCanonical(c);
    assert c[2] != c[0];
  }

  /** The id `11444777000162`, the reference id with its last digit
      changed, fails the validator. */
  lemma ReferenceChangedInvalid(c: string, v: string)
    requires |c| == Width && c[0] == '1' && c[1] == '1' && c[2] == '4' && c[3] == '4' && c[4] == '4' && c[5] == '7' && c[6] == '7' && c[7] == '7' && c[8] == '0' && c[9] == '0' && c[10] == '0' && c[11] == '1' && c[12] == '6' && c[13] == '2'
    requires |v| == Width && v[0] == '1' && v[1] == '1' && v[2] == '4' && v[3] == '4' && v[4] == '4' && v[5] == '7' && v[6] == '7' && v[7] == '7' && v[8] == '0' && v[9] == '0' && v[10] == '0' && v[11] == '1' && v[12] == '6' && v[13] == '1'
    ensures !Validar(Some(c))
  {
    ReferenceChecksum(v);
    assert v[..13] == c[..13];
    ChecksumLastDigit(v, c);
    ValidarCanonical(c);
  }

  /** The formatted id `11.444.777/0001-61` passes the validator. */
  lemma ReferenceFormattedValid(f: string, v: string)
    requires |f| == 18 && f[0] == '1' && f[1] == '1' && f[2] == '.' && f[3] == '4' && f[4] == '4' && f[5] == '4' && f[6] == '.' && f[7] == '7' && f[8] == '7' && f[9] == '7' && f[10] == '/' && f[11] == '0' && f[12] == '0' && f[13] == '0' && f[14] == '1' && f[15] == '-' && f[16] == '6' && f[17] == '1'
    requires |v| == Width && v[0] == '1' && v[1] == '1' && v[2] == '4' && v[3] == '4' && v[4] == '4' && v[5] == '7' && v[6] == '7' && v[7] == '7' && v[8] == '0' && v[9] == '0' && v[10] == '0' && v[11] == '1' && v[12] == '6' && v[13] == '1'
    ensures Validar(Some(f))
  {
    ReferenceValid(v);
    ReferenceDigits(f, v);
    DigitsOfDigits(v);
    ValidarByDigits(f, v);
  }
}
