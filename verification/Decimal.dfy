/** Decimal printing, and the digit-collecting reading of the release parser. */
module Decimal {

  predicate IsDigit(c: char) {
    '0' <= c <= '9'
  }

  function Digit(d: nat): (c: char)
    requires d < 10
    ensures IsDigit(c) && c as int - '0' as int == d
  {
    ('0' as int + d) as char
  }

  /** `std::to_string` of a non-negative number. */
  function Print(n: nat): (s: string)
    ensures |s| > 0 && forall i :: 0 <= i < |s| ==> IsDigit(s[i])
  {
    if n < 10 then [Digit(n)] else Print(n / 10) + [Digit(n % 10)]
  }

  /** Reading one character: digits extend the number, anything else is skipped. */
  function Read(n: nat, c: char): nat {
    if IsDigit(c) then n * 10 + (c as int - '0' as int) else n
  }

  function Value(s: string): nat {
    if s == "" then 0 else Read(Value(s[..|s| - 1]), s[|s| - 1])
  }

  /** Reading character by character: a digit is appended to the number, anything else is skipped. */
  lemma ValueGrows(s: string, c: char)
    ensures Value("") == 0
    ensures '0' <= c <= '9' ==> Value(s + [c]) == 10 * Value(s) + (c as int - '0' as int)
    ensures !('0' <= c <= '9') ==> Value(s + [c]) == Value(s)
  {
    assert (s + [c])[..|s|] == s;
  }

  /** A character that is no digit leaves the number alone, wherever it stands. */
  lemma {:induction false} OthersIgnored(a: string, c: char, b: string)
    requires !('0' <= c <= '9')
    ensures Value(a + [c] + b) == Value(a + b)
  {
    if b == "" {
      assert a + [c] + b == a + [c] && a + b == a;
      ValueGrows(a, c);
    } else {
      var front, last := b[..|b| - 1], b[|b| - 1];
      OthersIgnored(a, c, front);
      assert a + [c] + b == a + [c] + front + [last] && a + b == a + front + [last];
      ValueGrows(a + [c] + front, last);
      ValueGrows(a + front, last);
    }
  }

  ghost predicate AllDigits(s: string) {
    forall i :: 0 <= i < |s| ==> '0' <= s[i] <= '9'
  }

  /** A number is printed without leading zeros. */
  lemma {:induction false} NoLeadingZero(n: nat)
    ensures AllDigits(Print(n)) && (Print(n)[0] == '0' <==> n == 0) && (n == 0 ==> Print(n) == "0")
  {
    if n >= 10 {
      NoLeadingZero(n / 10);
    }
  }

  lemma PrintMore(n: nat, d: nat)
    requires n > 0 && d < 10
    ensures Print(10 * n + d) == Print(n) + [Digit(d)]
  {
    assert (10 * n + d) / 10 == n && (10 * n + d) % 10 == d;
  }

  lemma DigitOf(c: char)
    requires '0' <= c <= '9'
    ensures Digit(c as int - '0' as int) == c
  {
  }

  lemma PrintOne(c: char)
    requires '0' <= c <= '9'
    ensures Print(Value([c])) == [c]
  {
    assert "" + [c] == [c];
    ValueGrows("", c);
    DigitOf(c);
  }

  lemma PrintGrows(front: string, c: char)
    requires '0' <= c <= '9' && Value(front) > 0 && Print(Value(front)) == front
    ensures Print(Value(front + [c])) == front + [c]
  {
    hide Print;
    ValueGrows(front, c);
    DigitOf(c);
    PrintMore(Value(front), c as int - '0' as int);
  }

  /** Digits without a leading zero are the printed form of the number they spell. */
  lemma {:induction false} PrintUnique(s: string)
    requires AllDigits(s) && s != "" && (|s| == 1 || s[0] != '0')
    ensures Print(Value(s)) == s
  {
    hide Print;
    hide Value;
    var front, c := s[..|s| - 1], s[|s| - 1];
    assert s == front + [c];
    if |s| == 1 {
      PrintOne(c);
      assert s == [c];
    } else {
      PrintUnique(front);
      NoLeadingZero(Value(front));
      assert front[0] == s[0];
      PrintGrows(front, c);
    }
  }

  lemma {:induction false} ValueOfPrint(n: nat)
    ensures Value(Print(n)) == n
  {
    if n < 10 {
      assert [Digit(n)][..0] == "";
    } else {
      ValueOfPrint(n / 10);
      assert Print(n)[..|Print(n)| - 1] == Print(n / 10);
    }
  }

  /** Leading zeros do not change the number. */
  lemma {:induction false} ValueOfPadded(zeros: nat, s: string)
    ensures Value(seq(zeros, _ => '0') + s) == Value(s)
  {
    var t := seq(zeros, _ => '0') + s;
    if s != "" {
      ValueOfPadded(zeros, s[..|s| - 1]);
      assert t[..|t| - 1] == seq(zeros, _ => '0') + s[..|s| - 1];
    } else if zeros > 0 {
      ValueOfPadded(zeros - 1, "");
      assert seq(zeros - 1, _ => '0') + "" == seq(zeros - 1, _ => '0');
      assert t[..|t| - 1] == seq(zeros - 1, _ => '0');
    }
  }
}
