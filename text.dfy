/**
 * The string operations the timetable relies on: Integer#to_s for the
 * non-negative integers it prints, the "%.2d" format, and Ruby's String#<.
 */
module Text {

  predicate IsDigit(c: char) {
    '0' <= c <= '9'
  }

  predicate AllDigits(s: string) {
    forall i :: 0 <= i < |s| ==> IsDigit(s[i])
  }

  function DigitValue(c: char): (d: nat)
    requires IsDigit(c)
    ensures d < 10
  {
    c as int - '0' as int
  }

  function DigitChar(d: nat): (c: char)
    requires d < 10
    ensures IsDigit(c) && DigitValue(c) == d
  {
    (d + '0' as int) as char
  }

  /** The decimal value of a string of digits. */
  function ParseNat(s: string): nat
    requires AllDigits(s)
  {
    if s == [] then 0 else ParseNat(s[..|s| - 1]) * 10 + DigitValue(s[|s| - 1])
  }

  /** Integer#to_s on a non-negative integer: decimal digits without leading zeros. */
  function NatToString(n: nat): (s: string)
    ensures |s| >= 1 && AllDigits(s)
    ensures (s[0] == '0') <==> (n == 0)
    ensures (|s| == 1) <==> (n < 10)
  {
    if n < 10 then [DigitChar(n)] else NatToString(n / 10) + [DigitChar(n % 10)]
  }

  /** Reading back what Integer#to_s printed gives the number again. */
  lemma {:induction false} ParseNatToString(n: nat)
    ensures ParseNat(NatToString(n)) == n
  {
    if n >= 10 {
      var s := NatToString(n);
      assert s[..|s| - 1] == NatToString(n / 10);
      ParseNatToString(n / 10);
    }
  }

  /** Integer#to_s never prints two numbers alike. */
  lemma NatToStringInjective(a: nat, b: nat)
    ensures NatToString(a) == NatToString(b) ==> a == b
  {
    ParseNatToString(a);
    ParseNatToString(b);
  }

  /** Kernel#format("%.2d", n): the decimal digits of `n`, zero padded on the left to length two. */
  function Pad2(n: nat): (s: string)
    ensures AllDigits(s) && ParseNat(s) == n
    ensures |s| >= 2 && (n < 100 ==> |s| == 2)
  {
    ParseNatToString(n);
    if n < 10 then
      var d := NatToString(n);
      assert ParseNat("0" + d) == n by {
        assert ("0" + d)[..1] == "0";
      }
      "0" + d
    else
      var d := NatToString(n);
      assert |d| >= 2 by {
        if |d| == 1 { }
      }
      assert n < 100 ==> |NatToString(n / 10)| == 1;
      d
  }

  /** Ruby's String#< on code points: lexicographic order, where a proper prefix sorts first. */
  function LexLess(a: string, b: string): bool
  {
    if |b| == 0 then false
    else if |a| == 0 then true
    else if a[0] != b[0] then a[0] < b[0]
    else LexLess(a[1..], b[1..])
  }

  /** String#< is a strict order: never between equal strings, never both ways round, and a proper prefix comes first. */
  lemma {:induction false} LexLessStrict(a: string, b: string)
    ensures LexLess(a, b) ==> a != b && !LexLess(b, a)
    ensures a < b ==> LexLess(a, b)
  {
    if |a| > 0 && |b| > 0 && a[0] == b[0] {
      LexLessStrict(a[1..], b[1..]);
    }
  }

  /** Comparing two concatenations whose first parts have equal length. */
  lemma {:induction false} LexLessConcat(a1: string, a2: string, b1: string, b2: string)
    requires |a1| == |b1|
    ensures LexLess(a1 + a2, b1 + b2) == (LexLess(a1, b1) || (a1 == b1 && LexLess(a2, b2)))
  {
    if a1 == [] {
      assert a1 + a2 == a2 && b1 + b2 == b2;
    } else {
      assert (a1 + a2)[0] == a1[0] && (b1 + b2)[0] == b1[0];
      assert (a1 + a2)[1..] == a1[1..] + a2 && (b1 + b2)[1..] == b1[1..] + b2;
      LexLessConcat(a1[1..], a2, b1[1..], b2);
      if a1[0] == b1[0] {
        assert a1 == b1 <==> a1[1..] == b1[1..] by {
          assert a1 == [a1[0]] + a1[1..] && b1 == [b1[0]] + b1[1..];
        }
      }
    }
  }

  lemma ParseTwoDigits(a: string)
    requires |a| == 2 && AllDigits(a)
    ensures ParseNat(a) == DigitValue(a[0]) * 10 + DigitValue(a[1])
  {
    assert a[..1][..0] == [];
    assert ParseNat(a[..1]) == DigitValue(a[0]);
  }

  /** On two-digit fields, String#< is the numeric order. */
  lemma TwoDigitLexLess(a: string, b: string)
    requires |a| == 2 && |b| == 2 && AllDigits(a) && AllDigits(b)
    ensures LexLess(a, b) <==> ParseNat(a) < ParseNat(b)
    ensures a == b <==> ParseNat(a) == ParseNat(b)
  {
    ParseTwoDigits(a);
    ParseTwoDigits(b);
    assert a[1..][1..] == [] && b[1..][1..] == [];
    if a[0] == b[0] && a[1] == b[1] {
      assert a == b;
    }
    if a[0] == b[0] {
      assert LexLess(a, b) == LexLess(a[1..], b[1..]);
      assert a[1..][0] == a[1] && b[1..][0] == b[1];
      assert !LexLess(a[1..][1..], b[1..][1..]);
      assert LexLess(a, b) == (a[1] < b[1]);
    }
  }
}
