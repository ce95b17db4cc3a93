/** Decimal notation, as fmt.Sprintf("%d", n) writes it. */
module Decimal {

  predicate IsDigit(c: char) {
    '0' <= c <= '9'
  }

  predicate AllDigits(s: string) {
    forall i :: 0 <= i < |s| ==> IsDigit(s[i])
  }

  function Digit(d: nat): char
    requires d < 10
  {
    ('0' as int + d) as char
  }

  function Print(n: nat): (s: string)
    ensures s != "" && AllDigits(s)
  {
    if n < 10 then [Digit(n)] else Print(n / 10) + [Digit(n % 10)]
  }

  function Value(s: string): nat
    requires AllDigits(s)
  {
    if s == "" then 0
    else Value(s[..|s| - 1]) * 10 + (s[|s| - 1] as int - '0' as int)
  }

  lemma {:induction false} ValueOfPrint(n: nat)
    ensures Value(Print(n)) == n
  {
    if n < 10 {
      assert Print(n)[..0] == "";
      assert Value("") == 0;
    } else {
      ValueOfPrint(n / 10);
      assert Print(n)[..|Print(n)| - 1] == Print(n / 10);
    }
  }

  lemma PrintInjective(m: nat, n: nat)
    requires Print(m) == Print(n)
    ensures m == n
  {
    ValueOfPrint(m);
    ValueOfPrint(n);
  }

  /** More digits make a larger number. */
  lemma {:induction false} ValueGrows(s: string, more: string)
    requires AllDigits(s) && AllDigits(more) && more != ""
    ensures AllDigits(s + more) && Value(s + more) >= 10 * Value(s)
  {
    var t := s + more;
    assert t[..|t| - 1] == s + more[..|more| - 1];
    if |more| == 1 {
      assert t[..|t| - 1] == s;
    } else {
      ValueGrows(s, more[..|more| - 1]);
    }
  }
}
