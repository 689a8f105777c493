/** Decimal string forms of whole numbers, as JavaScript's `'' + n` writes
    them, with their inverse and the two facts the generator relies on
    without saying so: distinct numbers have distinct string forms, and
    among string forms of one length the string order is the numeric one. */
module Decimal {
  import opened Text

  predicate IsDigit(c: char)
  {
    '0' <= c <= '9'
  }

  predicate AllDigits(s: string)
  {
    forall k :: 0 <= k < |s| ==> IsDigit(s[k])
  }

  function DigitChar(d: nat): (c: char)
    requires d < 10
    ensures IsDigit(c)
  {
    (('0' as int) + d) as char
  }

  /** `'' + n` for a whole number `n`: digits, most significant first, with
      no leading zero. */
  function Show(n: nat): (s: string)
    ensures |s| >= 1 && AllDigits(s)
    ensures |s| == 1 <==> n < 10
    ensures s[0] == '0' ==> n == 0
    decreases n
  {
    if n < 10 then [DigitChar(n)] else Show(n / 10) + [DigitChar(n % 10)]
  }

  /** The number a string of digits denotes. */
  function Value(s: string): nat
    requires AllDigits(s)
    decreases |s|
  {
    if s == [] then 0 else Value(s[..|s| - 1]) * 10 + (s[|s| - 1] as int - '0' as int)
  }

  /** Reading back a decimal form gives the number. */
  lemma {:induction false} ValueShow(n: nat)
    ensures Value(Show(n)) == n
    decreases n
  {
    if n >= 10 {
      var s := Show(n);
      assert s[..|s| - 1] == Show(n / 10);
      ValueShow(n / 10);
    }
  }

  /** Distinct numbers have distinct string forms, so a string key made
      from a number identifies that number. */
  lemma ShowInjective(a: nat, b: nat)
    ensures Show(a) == Show(b) <==> a == b
  {
    if Show(a) == Show(b) {
      ValueShow(a);
      ValueShow(b);
    }
  }

  /** For string forms of equal length, string order is numeric order. */
  lemma {:induction false} SameLengthOrder(a: nat, b: nat)
    requires |Show(a)| == |Show(b)|
    ensures LessEq(Show(a), Show(b)) <==> a <= b
    decreases a
  {
    if a < 10 {
      assert Show(a) == [DigitChar(a)] && Show(b) == [DigitChar(b)];
      assert [DigitChar(a)][1..] == [] && [DigitChar(b)][1..] == [];
    } else {
      var qa, qb := a / 10, b / 10;
      var ca, cb := DigitChar(a % 10), DigitChar(b % 10);
      LessEqAppend(Show(qa), Show(qb), ca, cb);
      SameLengthOrder(qa, qb);
      ShowInjective(qa, qb);
      assert a == 10 * qa + a % 10 && b == 10 * qb + b % 10;
    }
  }
}
