/**
 Decimal text: Rust's `{}` and `{:06}` formatting of unsigned integers and
 `str::parse::<u64>`. The state-store keys and the numbered file names are
 both built from it.
 */
module Decimal {
  import opened Wrappers

  const U64_LIMIT: nat := 0x1_0000_0000_0000_0000

  predicate IsDigit(c: char) {
    '0' <= c <= '9'
  }

  predicate AllDigits(s: string) {
    forall i :: 0 <= i < |s| ==> IsDigit(s[i])
  }

  function DigitChar(d: nat): (c: char)
    requires d < 10
    ensures IsDigit(c) && DigitValue(c) == d
  {
    "0123456789"[d]
  }

  function DigitValue(c: char): (d: nat)
    requires IsDigit(c)
    ensures d < 10
  {
    (c as int) - ('0' as int)
  }

  /** `format!("{}", n)`: no sign, no leading zero. */
  function Print(n: nat): (s: string)
    ensures s != "" && AllDigits(s)
  {
    if n < 10 then [DigitChar(n)] else Print(n / 10) + [DigitChar(n % 10)]
  }

  /** `format!("{:06}", n)`. */
  function Print6(n: nat): (s: string)
    ensures |s| >= 6 && AllDigits(s)
  {
    var s := Print(n);
    if |s| < 6 then seq(6 - |s|, _ => '0') + s else s
  }

  function Value(s: string): nat
    requires AllDigits(s)
  {
    if s == "" then 0 else Value(s[..|s| - 1]) * 10 + DigitValue(s[|s| - 1])
  }

  /** `s.parse::<u64>()`: an optional plus sign, at least one digit, and no overflow. */
  function ParseU64(s: string): (r: Option<nat>)
    ensures r.Some? ==> r.value < U64_LIMIT
  {
    var t := if |s| > 1 && s[0] == '+' then s[1..] else s;
    if t == "" || !AllDigits(t) || Value(t) >= U64_LIMIT then None else Some(Value(t))
  }

  lemma {:induction false} ValueOfPrint(n: nat)
    ensures Value(Print(n)) == n
  {
    if n >= 10 {
      var s := Print(n);
      assert s[..|s| - 1] == Print(n / 10);
      ValueOfPrint(n / 10);
    }
  }

  /** Different numbers print differently. */
  lemma PrintInjective(m: nat, n: nat)
    requires Print(m) == Print(n)
    ensures m == n
  {
    ValueOfPrint(m);
    ValueOfPrint(n);
  }

  lemma {:induction false} LeadingZeros(k: nat, s: string)
    requires AllDigits(s)
    ensures AllDigits(seq(k, _ => '0') + s)
    ensures Value(seq(k, _ => '0') + s) == Value(s)
    decreases |s|, k
  {
    var z := seq(k, _ => '0');
    var t := z + s;
    if s != "" {
      assert t[..|t| - 1] == z + s[..|s| - 1];
      LeadingZeros(k, s[..|s| - 1]);
    } else if k > 0 {
      assert t[..|t| - 1] == seq(k - 1, _ => '0') + "";
      LeadingZeros(k - 1, "");
    }
  }

  lemma ValueOfPrint6(n: nat)
    ensures Value(Print6(n)) == n
  {
    ValueOfPrint(n);
    var s := Print(n);
    if |s| < 6 {
      LeadingZeros(6 - |s|, s);
    }
  }

  /** `format!("{:06}")` is undone by `parse::<u64>()`. */
  lemma ParseOfPrint6(n: nat)
    requires n < U64_LIMIT
    ensures ParseU64(Print6(n)) == Some(n)
  {
    ValueOfPrint6(n);
    assert Print6(n)[0] != '+';
  }

  function Pow10(w: nat): nat {
    if w == 0 then 1 else 10 * Pow10(w - 1)
  }

  lemma {:induction false} PrintLength(n: nat, w: nat)
    requires w >= 1
    ensures |Print(n)| <= w <==> n < Pow10(w)
    decreases w
  {
    if n >= 10 && w >= 2 {
      PrintLength(n / 10, w - 1);
    } else if w >= 2 {
      PrintLength(n, w - 1);
    }
  }

  /** The six-digit form is exactly six digits long precisely below one million. */
  lemma Print6Length(n: nat)
    ensures |Print6(n)| == 6 <==> n < 1_000_000
  {
    PrintLength(n, 6);
    assert Pow10(3) == 1000;
    assert Pow10(6) == 1_000_000;
  }
}
