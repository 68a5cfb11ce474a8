/** String helpers used by the controllers: ASCII lower-casing, right padding,
    substring search and the decimal rendering of a 64-bit `long`. */
module Text {
  import opened Tables

  /** `char.ToLower` restricted to ASCII letters. */
  function LowerChar(c: char): char {
    if 'A' <= c <= 'Z' then (c as int - 'A' as int + 'a' as int) as char else c
  }

  function Lower(s: string): (r: string)
    ensures |r| == |s|
    ensures forall i :: 0 <= i < |s| ==> r[i] == LowerChar(s[i])
  {
    if |s| == 0 then "" else [LowerChar(s[0])] + Lower(s[1..])
  }

  /** `s.PadRight(width, c)`. */
  function PadRight(s: string, width: nat, c: char): (r: string)
    ensures |r| == if |s| >= width then |s| else width
    ensures r[..|s|] == s
    ensures forall i :: |s| <= i < |r| ==> r[i] == c
  {
    if |s| >= width then s else s + seq(width - |s|, _ => c)
  }

  predicate IsPrefix(t: string, s: string) {
    |t| <= |s| && s[..|t|] == t
  }

  /** `s.Contains(t)`: `t` occurs in `s` at some offset. */
  predicate Contains(s: string, t: string)
    decreases |s|
  {
    IsPrefix(t, s) || (|s| > 0 && Contains(s[1..], t))
  }

  lemma {:induction false} ContainsAt(s: string, t: string, k: nat)
    requires k + |t| <= |s| && s[k..k + |t|] == t
    ensures Contains(s, t)
  {
    if k > 0 {
      assert s[1..][k - 1..k - 1 + |t|] == s[k..k + |t|];
      ContainsAt(s[1..], t, k - 1);
    }
  }

  predicate IsDigit(c: char) {
    '0' <= c <= '9'
  }

  function DigitChar(d: int): (c: char)
    requires 0 <= d < 10
    ensures IsDigit(c)
  {
    "0123456789"[d]
  }

  function DigitValue(c: char): int {
    c as int - '0' as int
  }

  /** Decimal digits of a natural number, most significant first. */
  function NatToDecimal(n: nat): (s: string)
    ensures 1 <= |s|
    ensures forall i :: 0 <= i < |s| ==> IsDigit(s[i])
    ensures n >= 10 ==> s[0] != '0'
    decreases n
  {
    if n < 10 then [DigitChar(n)] else NatToDecimal(n / 10) + [DigitChar(n % 10)]
  }

  /** Value of a string of decimal digits. */
  function ParseDigits(s: string): int {
    if |s| == 0 then 0 else 10 * ParseDigits(s[..|s| - 1]) + DigitValue(s[|s| - 1])
  }

  /** `n.ToString()` for a `long`: a minus sign, then the digits of |n|. */
  function Decimal(n: int): string {
    if n < 0 then "-" + NatToDecimal(-n) else NatToDecimal(n)
  }

  lemma {:induction false} ParseInvertsNatToDecimal(n: nat)
    ensures ParseDigits(NatToDecimal(n)) == n
  {
    if n >= 10 {
      var s := NatToDecimal(n);
      assert s[..|s| - 1] == NatToDecimal(n / 10);
      ParseInvertsNatToDecimal(n / 10);
    }
  }

  /** Distinct numbers render as distinct strings. */
  lemma DecimalInjective(a: int, b: int)
    requires Decimal(a) == Decimal(b)
    ensures a == b
  {
    DecimalSign(a);
    DecimalSign(b);
    var m := if a < 0 then -a else a;
    var n := if b < 0 then -b else b;
    DigitsOfDecimal(a);
    DigitsOfDecimal(b);
    assert NatToDecimal(m) == NatToDecimal(n);
    ParseInvertsNatToDecimal(m);
    ParseInvertsNatToDecimal(n);
  }

  /** The digits of `Decimal(n)` are the digits of its magnitude. */
  lemma DigitsOfDecimal(n: int)
    ensures n < 0 ==> Decimal(n)[1..] == NatToDecimal(-n)
    ensures n >= 0 ==> Decimal(n) == NatToDecimal(n)
  {
    if n < 0 {
      assert ("-" + NatToDecimal(-n))[1..] == NatToDecimal(-n);
    }
  }

  lemma DecimalSign(n: int)
    ensures |Decimal(n)| >= 1
    ensures Decimal(n)[0] == '-' <==> n < 0
  {
    if n >= 0 {
      var s := NatToDecimal(n);
      assert IsDigit(s[0]);
    }
  }

  /** `x?.ToString() ?? ""` for a nullable number. */
  function NumberText(n: Option<int>): string {
    match n
    case Some(v) => Decimal(v)
    case None => ""
  }

  /** A nullable number prints as "" exactly when it is missing. */
  lemma NumberTextEmptyIff(n: Option<int>)
    ensures n.None? <==> NumberText(n) == ""
  {
    if n.Some? {
      DecimalSign(n.value);
    }
  }

}
