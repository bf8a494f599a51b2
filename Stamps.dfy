/** Feed timestamps, their "%Y-%m-%d %H:%M" text form, and Python's order
    on strings, by which the report is sorted. */
module Stamps {

  /** The first six fields of a parsed feed time, as datetime(*t[:6]) takes them. */
  datatype Stamp = Stamp(year: int, month: int, day: int, hour: int, minute: int, second: int)

  /** Gregorian leap years: every fourth year, except centuries not
      divisible by 400. */
  predicate Leap(year: int)
  {
    year % 4 == 0 && (year % 100 != 0 || year % 400 == 0)
  }

  /** The number of days of a month of the given year. */
  function DaysInMonth(year: int, month: int): (n: int)
    requires 1 <= month <= 12
    ensures 28 <= n <= 31
    ensures n == 29 <==> month == 2 && Leap(year)
  {
    if month == 2 then (if Leap(year) then 29 else 28)
    else if month == 4 || month == 6 || month == 9 || month == 11 then 30
    else 31
  }

  /** The field values datetime accepts, with four-digit years: the day
      must exist in its month. */
  predicate Valid(t: Stamp)
  {
    1000 <= t.year <= 9999 && 1 <= t.month <= 12 && 1 <= t.day <= DaysInMonth(t.year, t.month) &&
    0 <= t.hour <= 23 && 0 <= t.minute <= 59 && 0 <= t.second <= 59
  }

  /** t is strictly earlier than u when both are read to the minute. */
  predicate Before(t: Stamp, u: Stamp)
  {
    t.year < u.year || (t.year == u.year &&
    (t.month < u.month || (t.month == u.month &&
    (t.day < u.day || (t.day == u.day &&
    (t.hour < u.hour || (t.hour == u.hour && t.minute < u.minute)))))))
  }

  predicate SameMinute(t: Stamp, u: Stamp)
  {
    t.year == u.year && t.month == u.month && t.day == u.day && t.hour == u.hour && t.minute == u.minute
  }

  // ---------------------------------------------------------------------
  // Zero-padded decimal fields

  function Pow10(k: nat): (p: nat)
    ensures 0 < p
  {
    if k == 0 then 1 else 10 * Pow10(k - 1)
  }

  function DigitChar(d: int): char
    requires 0 <= d <= 9
  {
    ('0' as int + d) as char
  }

  /** n written with exactly k decimal digits, zero-padded on the left. */
  function Digits(n: nat, k: nat): (s: string)
    requires n < Pow10(k)
    ensures |s| == k
  {
    if k == 0 then [] else Digits(n / 10, k - 1) + [DigitChar(n % 10)]
  }

  /** Every character of a padded field is a decimal digit. */
  lemma {:induction false} DigitsAreDigits(n: nat, k: nat)
    requires n < Pow10(k)
    ensures forall i :: 0 <= i < k ==> '0' <= Digits(n, k)[i] <= '9'
  {
    if k > 0 {
      DigitsAreDigits(n / 10, k - 1);
      assert forall i :: 0 <= i < k - 1 ==> Digits(n, k)[i] == Digits(n / 10, k - 1)[i];
    }
  }

  // ---------------------------------------------------------------------
  // Python's order on str: lexicographic by code point

  predicate Less(a: string, b: string)
  {
    if a == [] then b != []
    else if b == [] then false
    else if a[0] != b[0] then a[0] < b[0]
    else Less(a[1..], b[1..])
  }

  lemma {:induction false} LessIrreflexive(a: string)
    ensures !Less(a, a)
  {
    if a != [] { LessIrreflexive(a[1..]); }
  }

  lemma {:induction false} LessTransitive(a: string, b: string, c: string)
    requires Less(a, b) && Less(b, c)
    ensures Less(a, c)
  {
    if a != [] && b != [] && c != [] && a[0] == b[0] && b[0] == c[0] {
      LessTransitive(a[1..], b[1..], c[1..]);
    }
  }

  /** Any two strings are ordered one way or the other, and not both ways. */
  lemma {:induction false} LessTotal(a: string, b: string)
    ensures a == b || Less(a, b) || Less(b, a)
    ensures !(Less(a, b) && Less(b, a))
  {
    if a != [] && b != [] && a[0] == b[0] {
      LessTotal(a[1..], b[1..]);
      if a[1..] == b[1..] {
        assert a == [a[0]] + a[1..] && b == [b[0]] + b[1..];
      }
    }
  }

  /** Comparing two strings that start with parts of equal length compares
      those parts first. */
  lemma {:induction false} LessAppend(a: string, b: string, x: string, y: string)
    requires |a| == |b|
    ensures Less(a + x, b + y) <==> Less(a, b) || (a == b && Less(x, y))
  {
    if a == [] {
      assert a + x == x && b + y == y;
    } else {
      assert (a + x)[0] == a[0] && (b + y)[0] == b[0];
      assert (a + x)[1..] == a[1..] + x && (b + y)[1..] == b[1..] + y;
      LessAppend(a[1..], b[1..], x, y);
      if a[0] == b[0] {
        assert a == b <==> a[1..] == b[1..] by {
          assert a == [a[0]] + a[1..] && b == [b[0]] + b[1..];
        }
      }
    }
  }

  /** Padded fields of one width compare as their numbers do. */
  lemma {:induction false} DigitsOrder(n: nat, m: nat, k: nat)
    requires n < Pow10(k) && m < Pow10(k)
    ensures Less(Digits(n, k), Digits(m, k)) <==> n < m
    ensures Digits(n, k) == Digits(m, k) <==> n == m
  {
    if k == 0 {
      LessIrreflexive([]);
    } else {
      var hn, hm := Digits(n / 10, k - 1), Digits(m / 10, k - 1);
      var ln, lm := [DigitChar(n % 10)], [DigitChar(m % 10)];
      DigitsOrder(n / 10, m / 10, k - 1);
      LessAppend(hn, hm, ln, lm);
      assert Less(ln, lm) <==> n % 10 < m % 10 by {
        assert ln[1..] == [] && lm[1..] == [];
      }
      if hn + ln == hm + lm {
        assert (hn + ln)[..k - 1] == hn && (hm + lm)[..k - 1] == hm;
        assert (hn + ln)[k - 1] == ln[0] && (hm + lm)[k - 1] == lm[0];
      }
    }
  }

  // ---------------------------------------------------------------------
  // strftime("%Y-%m-%d %H:%M")

  /** The text form in the report; seconds are dropped. */
  function Format(t: Stamp): (s: string)
    requires Valid(t)
    ensures |s| == 16
  {
    Digits(t.year, 4) + ("-" + (Digits(t.month, 2) + ("-" + (Digits(t.day, 2) +
      (" " + (Digits(t.hour, 2) + (":" + Digits(t.minute, 2))))))))
  }

  /** The text has the separators of "%Y-%m-%d %H:%M" at their fixed places
      and decimal digits everywhere else. */
  lemma FormatShape(t: Stamp)
    requires Valid(t)
    ensures var s := Format(t);
      s[4] == '-' && s[7] == '-' && s[10] == ' ' && s[13] == ':' &&
      forall i :: 0 <= i < 16 && i != 4 && i != 7 && i != 10 && i != 13 ==> '0' <= s[i] <= '9'
  {
    DigitsAreDigits(t.year, 4);
    DigitsAreDigits(t.month, 2);
    DigitsAreDigits(t.day, 2);
    DigitsAreDigits(t.hour, 2);
    DigitsAreDigits(t.minute, 2);
  }

  /** One field followed by a separator and the rest of the text. */
  lemma FieldStep(n: nat, m: nat, k: nat, sep: string, x: string, y: string)
    requires n < Pow10(k) && m < Pow10(k)
    ensures Less(Digits(n, k) + (sep + x), Digits(m, k) + (sep + y)) <==> n < m || (n == m && Less(x, y))
    ensures Digits(n, k) + (sep + x) == Digits(m, k) + (sep + y) <==> n == m && x == y
  {
    DigitsOrder(n, m, k);
    LessAppend(Digits(n, k), Digits(m, k), sep + x, sep + y);
    LessAppend(sep, sep, x, y);
    LessIrreflexive(sep);
    var a, b := Digits(n, k) + (sep + x), Digits(m, k) + (sep + y);
    if a == b {
      assert a[..k] == Digits(n, k) && b[..k] == Digits(m, k);
      assert a[k + |sep|..] == x && b[k + |sep|..] == y;
    }
  }

  /** Sorting the text forms sorts the times: one text is smaller than
      another exactly when its time is earlier to the minute, and two texts
      are equal exactly when the times agree to the minute. */
  lemma FormatOrder(t: Stamp, u: Stamp)
    requires Valid(t) && Valid(u)
    ensures Less(Format(t), Format(u)) <==> Before(t, u)
    ensures Format(t) == Format(u) <==> SameMinute(t, u)
  {
    var mi := ":" + Digits(u.minute, 2);
    FieldStep(t.year, u.year, 4, "-",
      Digits(t.month, 2) + ("-" + (Digits(t.day, 2) + (" " + (Digits(t.hour, 2) + (":" + Digits(t.minute, 2)))))),
      Digits(u.month, 2) + ("-" + (Digits(u.day, 2) + (" " + (Digits(u.hour, 2) + (":" + Digits(u.minute, 2)))))));
    FieldStep(t.month, u.month, 2, "-",
      Digits(t.day, 2) + (" " + (Digits(t.hour, 2) + (":" + Digits(t.minute, 2)))),
      Digits(u.day, 2) + (" " + (Digits(u.hour, 2) + (":" + Digits(u.minute, 2)))));
    FieldStep(t.day, u.day, 2, " ",
      Digits(t.hour, 2) + (":" + Digits(t.minute, 2)),
      Digits(u.hour, 2) + (":" + Digits(u.minute, 2)));
    FieldStep(t.hour, u.hour, 2, ":", Digits(t.minute, 2), Digits(u.minute, 2));
    DigitsOrder(t.minute, u.minute, 2);
  }
}
