/**
 * Output file names: item `i` of a batch is saved as `code_{i:04d}`, in the
 * `datamatrix_codes` directory, with a `.png` extension.
 */
module Naming {

  predicate IsDigit(c: char) {
    '0' <= c <= '9'
  }

  predicate AllDigits(s: string) {
    forall i :: 0 <= i < |s| ==> IsDigit(s[i])
  }

  function Digit(d: nat): (c: char)
    requires d < 10
    ensures IsDigit(c)
  {
    "0123456789"[d]
  }

  function DigitValue(c: char): (d: nat)
    requires IsDigit(c)
    ensures d < 10
  {
    (c as int) - ('0' as int)
  }

  function Pow10(k: nat): (p: nat)
    ensures p >= 1
  {
    if k == 0 then 1 else 10 * Pow10(k - 1)
  }

  /** `str(n)` for a non-negative `n`: its decimal digits, without leading zeros. */
  function Decimal(n: nat): (s: string)
    ensures 1 <= |s| && AllDigits(s)
    ensures n > 0 ==> s[0] != '0'
  {
    if n < 10 then [Digit(n)] else Decimal(n / 10) + [Digit(n % 10)]
  }

  /** The number a string of decimal digits denotes; leading zeros add nothing. */
  function Value(s: string): nat
    requires AllDigits(s)
  {
    if s == [] then 0 else 10 * Value(s[..|s| - 1]) + DigitValue(s[|s| - 1])
  }

  /** Reading the digits of `str(n)` gives `n` back. */
  lemma {:induction false} ValueOfDecimal(n: nat)
    ensures Value(Decimal(n)) == n
  {
    var s := Decimal(n);
    if n >= 10 {
      ValueOfDecimal(n / 10);
      assert s[..|s| - 1] == Decimal(n / 10);
    }
  }

  /** `str(n)` has at most `k` digits exactly when `n < 10^k`. */
  lemma {:induction false} DecimalLength(n: nat, k: nat)
    requires k >= 1
    ensures |Decimal(n)| <= k <==> n < Pow10(k)
  {
    if n >= 10 {
      if k == 1 {
        assert |Decimal(n)| >= 2;
      } else {
        DecimalLength(n / 10, k - 1);
      }
    } else {
      assert Pow10(k) == 10 * Pow10(k - 1);
    }
  }

  function Zeros(k: nat): (s: string)
    ensures |s| == k && AllDigits(s)
    ensures forall i :: 0 <= i < k ==> s[i] == '0'
  {
    if k == 0 then [] else Zeros(k - 1) + "0"
  }

  /** Leading zeros do not change the value of a digit string. */
  lemma {:induction false} ValueZerosPrefix(k: nat, s: string)
    requires AllDigits(s)
    ensures AllDigits(Zeros(k) + s) && Value(Zeros(k) + s) == Value(s)
  {
    var t := Zeros(k) + s;
    assert forall i :: 0 <= i < |t| ==> IsDigit(t[i]) by {
      forall i | 0 <= i < |t| ensures IsDigit(t[i]) {
        if i >= k { assert t[i] == s[i - k]; }
      }
    }
    if s == [] {
      assert t == Zeros(k);
      ValueZeros(k);
    } else {
      assert t[..|t| - 1] == Zeros(k) + s[..|s| - 1];
      ValueZerosPrefix(k, s[..|s| - 1]);
    }
  }

  lemma {:induction false} ValueZeros(k: nat)
    ensures Value(Zeros(k)) == 0
  {
    if k > 0 {
      assert Zeros(k)[..k - 1] == Zeros(k - 1);
      ValueZeros(k - 1);
    }
  }

  /** The format spec `04d` for a non-negative number: `str(n)` left-padded with '0' to width 4. */
  function FourDigits(n: nat): string {
    var d := Decimal(n);
    Zeros(if |d| < 4 then 4 - |d| else 0) + d
  }

  /**
   * The padded form is all digits and denotes `n`, and it is `str(n)` itself
   * once that has four digits or more.
   */
  lemma FourDigitsValue(n: nat)
    ensures AllDigits(FourDigits(n)) && Value(FourDigits(n)) == n
    ensures |FourDigits(n)| == if |Decimal(n)| < 4 then 4 else |Decimal(n)|
    ensures |Decimal(n)| >= 4 ==> FourDigits(n) == Decimal(n)
  {
    var d := Decimal(n);
    ValueOfDecimal(n);
    ValueZerosPrefix(if |d| < 4 then 4 - |d| else 0, d);
    if |d| >= 4 {
      assert Zeros(0) + d == d;
    }
  }

  const Prefix := "code_"

  /** `f'code_{i:04d}'`, the name under which item `i` of a batch is saved. */
  function CodeName(i: nat): string {
    Prefix + FourDigits(i)
  }

  /** The name is `code_` followed by at least four digits that denote `i`. */
  lemma CodeNameShape(i: nat)
    ensures |CodeName(i)| >= 9 && CodeName(i)[..5] == Prefix
    ensures AllDigits(CodeName(i)[5..]) && Value(CodeName(i)[5..]) == i
  {
    FourDigitsValue(i);
    assert CodeName(i)[5..] == FourDigits(i);
  }

  /** Distinct items get distinct names, whatever their codes: names never collide. */
  lemma CodeNameInjective(i: nat, j: nat)
    ensures CodeName(i) == CodeName(j) <==> i == j
  {
    CodeNameShape(i);
    CodeNameShape(j);
    if CodeName(i) == CodeName(j) {
      assert CodeName(i)[5..] == CodeName(j)[5..];
    }
  }

  /** Below 10000 the numeric part is exactly four characters; from 10000 on it grows. */
  lemma CodeNameWidth(i: nat)
    ensures i < 10000 <==> |CodeName(i)| == 9
  {
    FourDigitsValue(i);
    DecimalLength(i, 4);
    assert Pow10(4) == 10000;
  }

  const Directory := "datamatrix_codes"

  /** `f'datamatrix_codes/{filename}.png'` */
  function ImagePath(name: string): string {
    Directory + "/" + name + ".png"
  }

  /** The path is the directory, a slash, the name and the extension, so the name can be read back from it. */
  lemma ImagePathParts(name: string)
    ensures |ImagePath(name)| == |Directory| + 1 + |name| + 4
    ensures ImagePath(name)[..|Directory| + 1] == Directory + "/"
    ensures ImagePath(name)[|Directory| + 1..|ImagePath(name)| - 4] == name
    ensures ImagePath(name)[|ImagePath(name)| - 4..] == ".png"
  {
  }

  /** The path of the image of item `i`. */
  function ItemPath(i: nat): string {
    ImagePath(CodeName(i))
  }

  /** Items are saved to pairwise distinct files. */
  lemma ItemPathInjective(i: nat, j: nat)
    ensures ItemPath(i) == ItemPath(j) <==> i == j
  {
    var p, q := ItemPath(i), ItemPath(j);
    ImagePathParts(CodeName(i));
    ImagePathParts(CodeName(j));
    if p == q {
      assert p[|Directory| + 1..|p| - 4] == q[|Directory| + 1..|q| - 4];
      CodeNameInjective(i, j);
    }
  }
}
