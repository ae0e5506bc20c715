/**
 Decimal text of integers as Go's strconv reads it and fmt writes it.
 */
module Decimal {
  import opened Sequences

  const MAX_INT := 0x7FFF_FFFF_FFFF_FFFF
  const MIN_INT := -0x8000_0000_0000_0000

  predicate IsDigit(c: char) {
    '0' <= c <= '9'
  }

  predicate AllDigits(s: string) {
    forall i :: 0 <= i < |s| ==> IsDigit(s[i])
  }

  function DigitOf(d: nat): (c: char)
    requires d < 10
    ensures IsDigit(c)
  {
    (48 + d) as char
  }

  lemma DigitText(d: nat)
    requires d < 10
    ensures DigitOf(d) == "0123456789"[d]
  {
  }

  function ValueOfDigit(c: char): (d: nat)
    requires IsDigit(c)
    ensures d < 10
  {
    c as int - 48
  }

  function Digits(n: nat): (s: string)
    ensures s != "" && AllDigits(s)
  {
    if n < 10 then [DigitOf(n)] else Digits(n / 10) + [DigitOf(n % 10)]
  }

  /** The "%d" verb. */
  function Print(n: int): string {
    if n < 0 then "-" + Digits(-n) else Digits(n)
  }

  function ValueOf(s: string): nat
    requires AllDigits(s)
  {
    if s == "" then 0 else 10 * ValueOf(s[..|s| - 1]) + ValueOfDigit(s[|s| - 1])
  }

  function Unsigned(s: string): Option<nat> {
    if s == "" || !AllDigits(s) then None else Some(ValueOf(s))
  }

  /** strconv.Atoi: an optional sign, at least one digit, and a value that fits in 64 bits. */
  function Atoi(s: string): Option<int> {
    var negative := s != "" && s[0] == '-';
    var body := if s != "" && (s[0] == '-' || s[0] == '+') then s[1..] else s;
    match Unsigned(body)
    case None => None
    case Some(v) =>
      var n: int := if negative then -(v as int) else v;
      if MIN_INT <= n <= MAX_INT then Some(n) else None
  }

  /** No sign and no leading zero: the expression ^(0|[1-9][0-9]*)$. */
  predicate Canonical(s: string) {
    s != "" && AllDigits(s) && (s[0] == '0' ==> |s| == 1)
  }

  lemma {:induction false} ReadsWhatItPrints(n: nat)
    ensures ValueOf(Digits(n)) == n && Canonical(Digits(n)) && (n > 0 ==> Digits(n)[0] != '0')
  {
    if n >= 10 {
      ReadsWhatItPrints(n / 10);
      assert Digits(n)[..|Digits(n)| - 1] == Digits(n / 10);
    }
  }

  lemma {:induction false} PrintsWhatItReads(s: string)
    requires Canonical(s)
    ensures Digits(ValueOf(s)) == s
    ensures s[0] != '0' ==> ValueOf(s) > 0
  {
    if |s| > 1 {
      var front := s[..|s| - 1];
      PrintsWhatItReads(front);
      assert ValueOf(s) / 10 == ValueOf(front) && ValueOf(s) % 10 == ValueOfDigit(s[|s| - 1]);
    } else {
      assert s[..0] == "" && s == [s[0]];
    }
  }

  /** Reading back a printed int gives it again, exactly when it fits. */
  lemma AtoiPrint(n: int)
    ensures Atoi(Print(n)) == if MIN_INT <= n <= MAX_INT then Some(n) else None
  {
    ReadsWhatItPrints(if n < 0 then -n else n);
  }

  /** What can be read at all: digits, after one sign or none, whose value fits. */
  lemma AtoiExactly(s: string, n: int)
    ensures Atoi(s) == Some(n) <==>
      -9_223_372_036_854_775_808 <= n <= 9_223_372_036_854_775_807 && exists digits :: Reads(s, digits, n)
  {
    if s != "" {
      assert s == [s[0]] + s[1..];
      assert Reads(s, s, n) || Reads(s, s[1..], n) || Atoi(s) != Some(n);
    }
    if digits :| Reads(s, digits, n) {
      assert s == digits || s[1..] == digits;
    }
  }

  ghost predicate Reads(s: string, digits: string, n: int) {
    && digits != "" && AllDigits(digits)
    && if s == "-" + digits then n == -(ValueOf(digits) as int)
       else s in {digits, "+" + digits} && n == ValueOf(digits)
  }
}
