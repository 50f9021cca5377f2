/** The canonical 27-character UTC timestamp of the ledger and its text order. */
module Timestamps {
  import opened Wrappers
  import opened Digits

  datatype DateTime = DateTime(year: nat, month: nat, day: nat, hour: nat, minute: nat, second: nat, micro: nat)

  predicate IsLeap(y: nat) { y % 4 == 0 && (y % 100 != 0 || y % 400 == 0) }

  function DaysInMonth(y: nat, m: nat): nat {
    if m == 2 then (if IsLeap(y) then 29 else 28)
    else if m in {4, 6, 9, 11} then 30
    else 31
  }

  /** The values a Python datetime can hold. */
  predicate IsCalendar(d: DateTime) {
    && 1 <= d.year <= 9999
    && 1 <= d.month <= 12
    && 1 <= d.day <= DaysInMonth(d.year, d.month)
    && d.hour < 24 && d.minute < 60 && d.second < 60 && d.micro < 1000000
  }

  type Utc = d: DateTime | IsCalendar(d) witness DateTime(2020, 1, 1, 0, 0, 0, 0)

  const TIMESTAMP_TEXT_LEN := 27
  const TIMESTAMP_MIN: Utc := DateTime(2020, 1, 1, 0, 0, 0, 0)
  const TIMESTAMP_MAX: Utc := DateTime(2100, 1, 1, 0, 0, 0, 0)

  predicate Before(a: DateTime, b: DateTime) {
    a.year < b.year || (a.year == b.year && (
      a.month < b.month || (a.month == b.month && (
        a.day < b.day || (a.day == b.day && (
          a.hour < b.hour || (a.hour == b.hour && (
            a.minute < b.minute || (a.minute == b.minute && (
              a.second < b.second || (a.second == b.second && a.micro < b.micro)))))))))))
  }

  predicate NotAfter(a: DateTime, b: DateTime) { !Before(b, a) }

  predicate InRange(d: Utc) { !Before(d, TIMESTAMP_MIN) && Before(d, TIMESTAMP_MAX) }

  /** A timestamp the ledger accepts: inside [2020, 2100). */
  type Stamp = d: Utc | InRange(d) witness DateTime(2020, 1, 1, 0, 0, 0, 0)

  /** The ledger accepts the moments of the years 2020 to 2099. */
  lemma InRangeIff(d: Utc)
    ensures InRange(d) <==> 2020 <= d.year <= 2099
  {
  }

  // The seven numbers with their separators: one fixed layout, most significant first.
  function SecondTail(d: Utc): (s: string)
    ensures |s| == 10
  {
    Widths(); Padded(d.second, 2) + ("." + (Padded(d.micro, 6) + "Z"))
  }

  function HourTail(d: Utc): (s: string)
    ensures |s| == 16
  {
    Widths(); Padded(d.hour, 2) + (":" + (Padded(d.minute, 2) + (":" + SecondTail(d))))
  }

  function Canonical(d: Utc): (s: string)
    ensures |s| == TIMESTAMP_TEXT_LEN
  {
    Widths();
    Padded(d.year, 4) + ("-" + (Padded(d.month, 2) + ("-" + (Padded(d.day, 2) + ("T" + HourTail(d))))))
  }

  lemma Widths()
    ensures Pow10(2) == 100 && Pow10(4) == 10000 && Pow10(6) == 1000000
  {
    assert Pow10(2) == 100;
    assert Pow10(4) == 100 * Pow10(2);
    assert Pow10(6) == 100 * Pow10(4);
  }

  predicate AllDigits(s: string) { forall i :: 0 <= i < |s| ==> IsDigit(s[i]) }

  /** Reads a stored timestamp; anything that is not a calendar moment in the layout is refused. */
  function Parse(s: string): Option<DateTime> {
    if |s| == 27
       && AllDigits(s[0..4]) && s[4] == '-' && AllDigits(s[5..7]) && s[7] == '-' && AllDigits(s[8..10])
       && s[10] == 'T' && AllDigits(s[11..13]) && s[13] == ':' && AllDigits(s[14..16]) && s[16] == ':'
       && AllDigits(s[17..19]) && s[19] == '.' && AllDigits(s[20..26]) && s[26] == 'Z'
    then
      var d := DateTime(ParseDigits(s[0..4]), ParseDigits(s[5..7]), ParseDigits(s[8..10]),
                        ParseDigits(s[11..13]), ParseDigits(s[14..16]), ParseDigits(s[17..19]),
                        ParseDigits(s[20..26]));
      if IsCalendar(d) then Some(d) else None
    else None
  }

  lemma Layout(d: Utc)
    ensures Pow10(2) == 100 && Pow10(4) == 10000 && Pow10(6) == 1000000
    ensures var s := Canonical(d);
            s[0..4] == Padded(d.year, 4) && s[5..7] == Padded(d.month, 2) && s[8..10] == Padded(d.day, 2)
            && s[11..13] == Padded(d.hour, 2) && s[14..16] == Padded(d.minute, 2)
            && s[17..19] == Padded(d.second, 2) && s[20..26] == Padded(d.micro, 6)
            && s[4] == '-' && s[7] == '-' && s[10] == 'T' && s[13] == ':' && s[16] == ':' && s[19] == '.'
            && s[26] == 'Z'
  {
    Widths();
    var s, t, u := Canonical(d), HourTail(d), SecondTail(d);
    assert s[11..] == t && t[6..] == u;
    assert forall i, j :: 0 <= i <= j <= 16 ==> s[11 + i..11 + j] == t[i..j];
    assert forall i, j :: 0 <= i <= j <= 10 ==> t[6 + i..6 + j] == u[i..j];
    assert u[0..2] == Padded(d.second, 2) && u[3..9] == Padded(d.micro, 6);
    assert s[17..19] == t[6..8] == u[0..2];
    assert s[20..26] == t[9..15] == u[3..9];
  }

  /** What the store writes, it reads back unchanged. */
  lemma ParseCanonical(d: Utc)
    ensures Parse(Canonical(d)) == Some(d)
  {
    Layout(d);
    hide Canonical;
    hide Padded;
    hide ParseDigits;
    hide Pow10;
    ParsePadded(d.year, 4);
    ParsePadded(d.month, 2);
    ParsePadded(d.day, 2);
    ParsePadded(d.hour, 2);
    ParsePadded(d.minute, 2);
    ParsePadded(d.second, 2);
    ParsePadded(d.micro, 6);
  }

  /** What is read is written back as it was: only canonical text is read. */
  lemma CanonicalParse(s: string)
    requires Parse(s).Some?
    ensures Canonical(Parse(s).value) == s
  {
    var d: Utc := Parse(s).value;
    PaddedParse(s[0..4]);
    PaddedParse(s[5..7]);
    PaddedParse(s[8..10]);
    PaddedParse(s[11..13]);
    PaddedParse(s[14..16]);
    PaddedParse(s[17..19]);
    PaddedParse(s[20..26]);
    Layout(d);
    hide Parse;
    hide ParseDigits;
    hide Padded;
    hide Pow10;
    var c := Canonical(d);
    hide Canonical;
    Pieces(c);
    Pieces(s);
  }

  lemma Pieces(s: string)
    requires |s| == 27
    ensures s == s[0..4] + [s[4]] + s[5..7] + [s[7]] + s[8..10] + [s[10]] + s[11..13] + [s[13]] + s[14..16] + [s[16]]
                 + s[17..19] + [s[19]] + s[20..26] + [s[26]]
  {
  }

  lemma CanonicalInjective(a: Utc, b: Utc)
    requires Canonical(a) == Canonical(b)
    ensures a == b
  {
    ParseCanonical(a);
    ParseCanonical(b);
  }

  lemma FieldThen(n: nat, m: nat, w: nat, sep: string, x: string, y: string)
    requires n < Pow10(w) && m < Pow10(w) && |sep| == 1
    ensures LexLess(Padded(n, w) + (sep + x), Padded(m, w) + (sep + y)) <==> n < m || (n == m && LexLess(x, y))
  {
    PaddedOrder(n, m, w);
    LexConcat(Padded(n, w), Padded(m, w), sep + x, sep + y);
    LexConcat(sep, sep, x, y);
    LexIrreflexive(sep);
  }

  /** Text order of the stored column is time order: the SQL guard and the verifier compare alike. */
  lemma CanonicalOrder(a: Utc, b: Utc)
    ensures LexLess(Canonical(a), Canonical(b)) <==> Before(a, b)
  {
    Widths();
    PaddedOrder(a.micro, b.micro, 6);
    LexConcat(Padded(a.micro, 6), Padded(b.micro, 6), "Z", "Z");
    LexIrreflexive("Z");
    FieldThen(a.second, b.second, 2, ".", Padded(a.micro, 6) + "Z", Padded(b.micro, 6) + "Z");
    FieldThen(a.minute, b.minute, 2, ":", SecondTail(a), SecondTail(b));
    FieldThen(a.hour, b.hour, 2, ":", Padded(a.minute, 2) + (":" + SecondTail(a)),
              Padded(b.minute, 2) + (":" + SecondTail(b)));
    FieldThen(a.day, b.day, 2, "T", HourTail(a), HourTail(b));
    FieldThen(a.month, b.month, 2, "-", Padded(a.day, 2) + ("T" + HourTail(a)),
              Padded(b.day, 2) + ("T" + HourTail(b)));
    FieldThen(a.year, b.year, 4, "-", Padded(a.month, 2) + ("-" + (Padded(a.day, 2) + ("T" + HourTail(a)))),
              Padded(b.month, 2) + ("-" + (Padded(b.day, 2) + ("T" + HourTail(b)))));
  }
}
