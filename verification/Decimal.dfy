/** Whole numbers as they are written, and read back. */
module Decimal {
  import opened Basics

  function Digits(n: nat): string {
    if n < 10 then ['0' + n as char] else Digits(n / 10) + ['0' + (n % 10) as char]
  }

  lemma {:induction false} DigitsRead(n: nat)
    ensures Digits(n) != "" && AllDigits(Digits(n)) && NumberOf(Digits(n)) == n
  {
    if n < 10 {
      assert Digits(n)[..0] == "";
    } else {
      DigitsRead(n / 10);
      var last := '0' + (n % 10) as char;
      assert Digits(n) == Digits(n / 10) + [last] && Digits(n)[..|Digits(n)| - 1] == Digits(n / 10);
    }
  }
}
