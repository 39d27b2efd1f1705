/** `DD/MM/YYYY` timestamps: splitting into day, month and year, the integer
    date key the gallery sorts by, and the comparator handed to `Array.prototype.sort`. */
module Timestamps {
  import opened Text

  datatype Date = Date(day: nat, month: nat, year: nat)

  /** The dates a well-formed timestamp can denote: a month that names a
      calendar month and a day that fits in two digits. */
  predicate ValidDate(d: Date) {
    1 <= d.month <= 12 && d.day < 100
  }

  /** A timestamp whose first three `/`-separated fields are digit runs, with a
      month in 1..12 and a day below 100. Further fields are ignored, as the
      destructuring `[d, m, y]` ignores them. */
  predicate WellFormed(ts: string) {
    var f := Split(ts, '/');
    && |f| >= 3
    && IsNumeral(f[0]) && IsNumeral(f[1]) && IsNumeral(f[2])
    && 1 <= ParseNat(f[1]) <= 12
    && ParseNat(f[0]) < 100
  }

  /** The number `Number` gives field `i` when that field is a digit run.
      Fields that are absent or not a digit run lie outside the model's
      well-formed inputs and are read as 0. */
  function FieldNumber(f: seq<string>, i: nat): nat {
    if i < |f| && IsNumeral(f[i]) then ParseNat(f[i]) else 0
  }

  /** `ts.split("/").map(Number)`, read as day, month and year. */
  function Parse(ts: string): (d: Date)
    ensures WellFormed(ts) ==> ValidDate(d)
  {
    var f := Split(ts, '/');
    Date(FieldNumber(f, 0), FieldNumber(f, 1), FieldNumber(f, 2))
  }

  /** Three digit runs joined by `/` parse field by field: day, month and
      year are the fields' numeric values. */
  lemma ParseFields(df: string, mf: string, yf: string)
    requires IsNumeral(df) && IsNumeral(mf) && IsNumeral(yf)
    ensures Parse(df + "/" + mf + "/" + yf) == Date(ParseNat(df), ParseNat(mf), ParseNat(yf))
  {
    var fields := [df, mf, yf];
    assert forall i :: 0 <= i < |fields| ==> '/' !in fields[i] by {
      assert !IsDigit('/');
    }
    assert Join(fields, '/') == df + "/" + mf + "/" + yf by {
      assert Join(fields[2..], '/') == yf;
    }
    SplitJoin(fields, '/');
  }

  /** `year * 10000 + month * 100 + day`. */
  function Key(d: Date): int {
    d.year * 10000 + d.month * 100 + d.day
  }

  function DateKey(ts: string): int {
    Key(Parse(ts))
  }

  /** Strictly earlier in calendar order: year first, then month, then day. */
  predicate Before(a: Date, b: Date) {
    || a.year < b.year
    || (a.year == b.year && a.month < b.month)
    || (a.year == b.year && a.month == b.month && a.day < b.day)
  }

  /** On valid dates the integer key orders exactly as the calendar does, and
      two dates share a key only when they are the same date. */
  lemma KeyOrder(a: Date, b: Date)
    requires ValidDate(a) && ValidDate(b)
    ensures Key(a) < Key(b) <==> Before(a, b)
    ensures Key(a) == Key(b) <==> a == b
  {
    if a.year < b.year {
      assert Key(a) <= a.year * 10000 + 1299;
      assert b.year * 10000 >= a.year * 10000 + 10000;
    } else if b.year < a.year {
      assert Key(b) <= b.year * 10000 + 1299;
      assert a.year * 10000 >= b.year * 10000 + 10000;
    }
  }

  /** The comparator `(a, b) => dateB - dateA`. */
  function Compare(a: string, b: string): int {
    DateKey(b) - DateKey(a)
  }

  /** The comparator is negative exactly when `a` is the more recent date, so
      `sort` puts it first; zero exactly on the same date. */
  lemma CompareOrder(a: string, b: string)
    requires WellFormed(a) && WellFormed(b)
    ensures Compare(a, b) < 0 <==> Before(Parse(b), Parse(a))
    ensures Compare(a, b) == 0 <==> Parse(a) == Parse(b)
    ensures Compare(a, b) == -Compare(b, a)
  {
    KeyOrder(Parse(a), Parse(b));
    KeyOrder(Parse(b), Parse(a));
  }

  /** A number below 100 written with at least two digits, as `DD` and `MM` are. */
  function Pad2(n: nat): string
    requires n < 100
  {
    if n < 10 then "0" + Show(n) else Show(n)
  }

  /** The `DD/MM/YYYY` text of a date. */
  function Format(d: Date): string
    requires ValidDate(d)
  {
    Pad2(d.day) + "/" + Pad2(d.month) + "/" + Show(d.year)
  }

  lemma PadParses(n: nat)
    requires n < 100
    ensures IsNumeral(Pad2(n)) && '/' !in Pad2(n) && ParseNat(Pad2(n)) == n
  {
    ParseShow(n);
    if n < 10 {
      ParseLeadingZero(Show(n));
    }
  }

  /** Parsing a formatted date gives the date back: a leading zero in the day
      or month is dropped, and nothing else is lost. */
  lemma ParseFormat(d: Date)
    requires ValidDate(d)
    ensures WellFormed(Format(d)) && Parse(Format(d)) == d
  {
    var fields := [Pad2(d.day), Pad2(d.month), Show(d.year)];
    PadParses(d.day);
    PadParses(d.month);
    ParseShow(d.year);
    assert '/' !in Show(d.year);
    assert Join(fields, '/') == Format(d) by {
      assert Join(fields[2..], '/') == Show(d.year);
    }
    SplitJoin(fields, '/');
  }
}
