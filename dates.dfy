/** Calendar dates as the date input and `toISOString().split('T')[0]` produce them:
    zero-padded `YYYY-MM-DD`. The view orders records with
    `new Date(a.date) - new Date(b.date)`; for valid calendar dates in this form that
    difference has the sign of the comparison of the (year, month, day) triples. */
module IsoDate {

  predicate IsDigit(c: char) {
    '0' <= c <= '9'
  }

  /** The value of the digit at position `i`; 0 where there is none. */
  function DigitAt(s: string, i: nat): (n: nat)
    ensures n <= 9
  {
    if i < |s| && IsDigit(s[i]) then s[i] as int - '0' as int else 0
  }

  /** Ten characters, dashes at positions 4 and 7, digits everywhere else. */
  predicate HasShape(s: string) {
    && |s| == 10
    && s[4] == '-' && s[7] == '-'
    && IsDigit(s[0]) && IsDigit(s[1]) && IsDigit(s[2]) && IsDigit(s[3])
    && IsDigit(s[5]) && IsDigit(s[6]) && IsDigit(s[8]) && IsDigit(s[9])
  }

  /** The year field of a well-shaped date. */
  function Year(s: string): (y: nat)
    ensures y <= 9999
  {
    DigitAt(s, 0) * 1000 + DigitAt(s, 1) * 100 + DigitAt(s, 2) * 10 + DigitAt(s, 3)
  }

  /** The month field of a well-shaped date. */
  function Month(s: string): (m: nat)
    ensures m <= 99
  {
    DigitAt(s, 5) * 10 + DigitAt(s, 6)
  }

  /** The day field of a well-shaped date. */
  function Day(s: string): (d: nat)
    ensures d <= 99
  {
    DigitAt(s, 8) * 10 + DigitAt(s, 9)
  }

  /** Gregorian leap years. */
  predicate IsLeapYear(y: int) {
    (y % 4 == 0 && y % 100 != 0) || y % 400 == 0
  }

  function DaysInMonth(y: int, m: int): (n: int)
    requires 1 <= m <= 12
    ensures 28 <= n <= 31
  {
    if m == 2 then (if IsLeapYear(y) then 29 else 28)
    else if m == 4 || m == 6 || m == 9 || m == 11 then 30
    else 31
  }

  /** A real calendar date written as `YYYY-MM-DD`. */
  predicate IsValid(s: string) {
    && HasShape(s)
    && 1 <= Month(s) <= 12
    && 1 <= Day(s) <= DaysInMonth(Year(s), Month(s))
  }

  /** `a` is a strictly earlier day than `b`: the comparator is negative. */
  predicate Before(a: string, b: string)
  {
    || Year(a) < Year(b)
    || (Year(a) == Year(b) && Month(a) < Month(b))
    || (Year(a) == Year(b) && Month(a) == Month(b) && Day(a) < Day(b))
  }

  /** `a` and `b` name the same day: the comparator returns 0. */
  predicate SameDay(a: string, b: string)
  {
    Year(a) == Year(b) && Month(a) == Month(b) && Day(a) == Day(b)
  }

  /** Of two dates exactly one is earlier, or they are the same day. */
  lemma Trichotomy(a: string, b: string)
    ensures Before(a, b) || SameDay(a, b) || Before(b, a)
    ensures !(Before(a, b) && Before(b, a))
    ensures SameDay(a, b) ==> !Before(a, b) && !Before(b, a)
  {
  }

  /** Not-before is transitive: the comparator is a total preorder, which is what a
      sort needs of it. */
  lemma NotBeforeTransitive(x: string, y: string, z: string)
    requires !Before(x, y) && !Before(y, z)
    ensures !Before(x, z)
  {
  }
}
