/** Publication dates as the Constitutional Council's file writes them,
    `DD/MM/YYYY`, and the order of the days they name. */
module DayMonthYear {
  import opened Lex

  predicate IsDigit(ch: char)
  {
    '0' <= ch <= '9'
  }

  predicate AllDigits(s: string)
  {
    forall i :: 0 <= i < |s| ==> IsDigit(s[i])
  }

  function DigitValue(ch: char): nat
    requires IsDigit(ch)
  {
    (ch as int) - ('0' as int)
  }

  function Pow10(n: nat): nat
  {
    if n == 0 then 1 else 10 * Pow10(n - 1)
  }

  /** The number a string of decimal digits spells, most significant first. */
  function Number(s: string): nat
    requires AllDigits(s)
  {
    if s == [] then 0 else DigitValue(s[0]) * Pow10(|s| - 1) + Number(s[1..])
  }

  /** `DD/MM/YYYY` with ASCII digits. */
  predicate WellFormed(s: string)
  {
    |s| == 10 && s[2] == '/' && s[5] == '/'
    && AllDigits(s[0..2]) && AllDigits(s[3..5]) && AllDigits(s[6..10])
  }

  /** The day as a number that orders days as the calendar does: year,
      then month, then day of month (month and day are below 100). */
  function DayNumber(s: string): nat
    requires WellFormed(s)
  {
    Number(s[6..10]) * 10000 + Number(s[3..5]) * 100 + Number(s[0..2])
  }

  /** The sort key of a date, `YYYYMMDD`; text that is not a date is its own key. */
  function ChronoKey(s: string): string
  {
    if WellFormed(s) then s[6..10] + s[3..5] + s[0..2] else s
  }

  lemma Pow10Add(m: nat, n: nat)
    ensures Pow10(m + n) == Pow10(m) * Pow10(n)
  {
    if m > 0 {
      Pow10Add(m - 1, n);
      assert Pow10(m + n) == 10 * Pow10(m - 1 + n);
    }
  }

  lemma {:induction false} NumberBound(s: string)
    requires AllDigits(s)
    ensures Number(s) < Pow10(|s|)
  {
    if s != [] {
      assert AllDigits(s[1..]) by {
        assert forall i :: 0 <= i < |s| - 1 ==> s[1..][i] == s[i + 1];
      }
      NumberBound(s[1..]);
      DigitTimesPower(DigitValue(s[0]), Pow10(|s| - 1));
    }
  }

  /** A digit times a power, plus something below that power, stays below
      ten times the power. */
  lemma DigitTimesPower(d: nat, p: nat)
    requires d <= 9
    ensures d * p + p <= 10 * p
  {
  }

  lemma {:induction false} NumberAppend(a: string, b: string)
    requires AllDigits(a) && AllDigits(b)
    ensures AllDigits(a + b)
    ensures Number(a + b) == Number(a) * Pow10(|b|) + Number(b)
  {
    if a == [] {
      assert a + b == b;
    } else {
      var rest := a[1..];
      assert AllDigits(rest) by {
        assert forall i :: 0 <= i < |rest| ==> rest[i] == a[i + 1];
      }
      assert a + b == [a[0]] + (rest + b);
      NumberAppend(rest, b);
      Pow10Add(|rest|, |b|);
      NumberCons(a[0], rest + b);
      NumberCons(a[0], rest);
      Regroup(DigitValue(a[0]), Pow10(|rest|), Pow10(|b|), Number(rest), Number(b));
    }
  }

  lemma NumberCons(ch: char, s: string)
    requires IsDigit(ch) && AllDigits(s)
    ensures AllDigits([ch] + s)
    ensures Number([ch] + s) == DigitValue(ch) * Pow10(|s|) + Number(s)
  {
    assert ([ch] + s)[1..] == s;
  }

  lemma Regroup(d: nat, p: nat, q: nat, u: nat, w: nat)
    ensures d * (p * q) + (u * q + w) == (d * p + u) * q + w
  {
    assert d * (p * q) == (d * p) * q;
  }

  /** Among digit strings of one length, text order is numeric order. */
  lemma {:induction false} DigitsOrder(a: string, b: string)
    requires |a| == |b| && AllDigits(a) && AllDigits(b)
    ensures LexLessEq(a, b) <==> Number(a) <= Number(b)
  {
    if a != [] {
      var p := Pow10(|a| - 1);
      var da, db := DigitValue(a[0]), DigitValue(b[0]);
      assert AllDigits(a[1..]) && AllDigits(b[1..]) by {
        assert forall i :: 0 <= i < |a| - 1 ==> a[1..][i] == a[i + 1] && b[1..][i] == b[i + 1];
      }
      NumberBound(a[1..]);
      NumberBound(b[1..]);
      if a[0] == b[0] {
        DigitsOrder(a[1..], b[1..]);
      } else if a[0] < b[0] {
        LowerDigitSmaller(da, db, p, Number(a[1..]), Number(b[1..]));
      } else {
        LowerDigitSmaller(db, da, p, Number(b[1..]), Number(a[1..]));
      }
    }
  }

  lemma LowerDigitSmaller(x: nat, y: nat, p: nat, u: nat, v: nat)
    requires x < y && u < p
    ensures x * p + u < y * p + v
  {
    assert (x + 1) * p <= y * p by {
      MulLeq(x + 1, y, p);
    }
  }

  lemma MulLeq(x: nat, y: nat, p: nat)
    requires x <= y
    ensures x * p <= y * p
  {
  }

  lemma ChronoKeyNumber(s: string)
    requires WellFormed(s)
    ensures AllDigits(ChronoKey(s)) && |ChronoKey(s)| == 8
    ensures Number(ChronoKey(s)) == DayNumber(s)
  {
    var y, m, d := s[6..10], s[3..5], s[0..2];
    NumberAppend(y, m);
    NumberAppend(y + m, d);
    assert Pow10(2) == 100;
    assert Number(y) * 100 * 100 == Number(y) * 10000;
  }

  /** A date is well formed when its characters are, one by one. */
  lemma WellFormedFromChars(s: string)
    requires |s| == 10 && s[2] == '/' && s[5] == '/'
    requires IsDigit(s[0]) && IsDigit(s[1]) && IsDigit(s[3]) && IsDigit(s[4])
    requires IsDigit(s[6]) && IsDigit(s[7]) && IsDigit(s[8]) && IsDigit(s[9])
    ensures WellFormed(s)
  {
    assert forall i :: 0 <= i < 2 ==> s[0..2][i] == s[i] && s[3..5][i] == s[i + 3];
    assert forall i :: 0 <= i < 4 ==> s[6..10][i] == s[i + 6];
  }

  lemma NumberOfTwo(s: string)
    requires |s| == 2 && AllDigits(s)
    ensures Number(s) == DigitValue(s[0]) * 10 + DigitValue(s[1])
  {
    var rest := s[1..];
    assert rest[0] == s[1] && AllDigits(rest);
    assert rest[1..] == [];
    assert Number(rest) == DigitValue(s[1]) * Pow10(0) + Number(rest[1..]);
    assert Pow10(1) == 10;
  }

  /** For well-formed dates, comparing keys as text compares the days. */
  lemma ChronoKeyOrder(s: string, t: string)
    requires WellFormed(s) && WellFormed(t)
    ensures LexLessEq(ChronoKey(s), ChronoKey(t)) <==> DayNumber(s) <= DayNumber(t)
  {
    ChronoKeyNumber(s);
    ChronoKeyNumber(t);
    DigitsOrder(ChronoKey(s), ChronoKey(t));
  }
}
