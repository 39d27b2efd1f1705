/** Decimal numerals and splitting on a separator, as the gallery uses them:
    `Number(field)` on a run of digits, `${n}` in a template literal, and
    `String.prototype.split` on a single character. */
module Text {

  predicate IsDigit(c: char) {
    '0' <= c <= '9'
  }

  predicate AllDigits(s: string) {
    forall i :: 0 <= i < |s| ==> IsDigit(s[i])
  }

  /** A non-empty run of decimal digits: the only fields `Number` is applied to here. */
  predicate IsNumeral(s: string) {
    |s| >= 1 && AllDigits(s)
  }

  function DigitValue(c: char): (d: nat)
    requires IsDigit(c)
    ensures d < 10
  {
    (c as int) - ('0' as int)
  }

  function DigitChar(d: nat): (c: char)
    requires d < 10
    ensures IsDigit(c) && DigitValue(c) == d
  {
    (('0' as int) + d) as char
  }

  /** The value `Number(s)` gives a string of decimal digits. */
  function ParseNat(s: string): nat
    requires AllDigits(s)
  {
    if s == [] then 0 else ParseNat(s[..|s| - 1]) * 10 + DigitValue(s[|s| - 1])
  }

  /** A digit run reads as zero exactly when every digit is `0`. */
  lemma {:induction false} ParseZero(s: string)
    requires AllDigits(s)
    ensures ParseNat(s) == 0 <==> forall i :: 0 <= i < |s| ==> s[i] == '0'
  {
    if s != [] {
      var init := s[..|s| - 1];
      ParseZero(init);
      assert forall i :: 0 <= i < |init| ==> init[i] == s[i];
    }
  }

  /** The decimal text a template literal prints for a natural number. */
  function Show(n: nat): (r: string)
    ensures IsNumeral(r)
    ensures r[0] == '0' <==> n == 0
    ensures n == 0 ==> r == "0"
  {
    if n < 10 then [DigitChar(n)] else Show(n / 10) + [DigitChar(n % 10)]
  }

  /** Reading back what Show prints gives the number again. */
  lemma {:induction false} ParseShow(n: nat)
    ensures ParseNat(Show(n)) == n
  {
    if n >= 10 {
      var s := Show(n);
      assert s[..|s| - 1] == Show(n / 10);
      ParseShow(n / 10);
    }
  }

  /** `Number` drops a leading zero. */
  lemma {:induction false} ParseLeadingZero(s: string)
    requires AllDigits(s)
    ensures AllDigits("0" + s) && ParseNat("0" + s) == ParseNat(s)
  {
    var z := "0" + s;
    if s != [] {
      assert z[..|z| - 1] == "0" + s[..|s| - 1];
      ParseLeadingZero(s[..|s| - 1]);
    }
  }

  /** `Number` drops any run of leading zeros. */
  lemma {:induction false} ParseLeadingZeros(k: nat, s: string)
    requires AllDigits(s)
    ensures AllDigits(Zeros(k) + s) && ParseNat(Zeros(k) + s) == ParseNat(s)
  {
    if k > 0 {
      var t := Zeros(k - 1) + s;
      ParseLeadingZeros(k - 1, s);
      assert Zeros(k) + s == "0" + t;
      ParseLeadingZero(t);
    } else {
      assert Zeros(k) + s == s;
    }
  }

  function Zeros(k: nat): (z: string)
    ensures |z| == k && forall i :: 0 <= i < k ==> z[i] == '0'
  {
    if k == 0 then "" else "0" + Zeros(k - 1)
  }

  /** Two texts `w + " de " + rest` with a space-free first word are equal
      only when their words and their rests are. */
  lemma CancelWord(n1: string, s1: string, n2: string, s2: string)
    requires ' ' !in n1 && ' ' !in n2
    requires n1 + " de " + s1 == n2 + " de " + s2
    ensures n1 == n2 && s1 == s2
  {
    ShorterWord(n1, s1, n2, s2);
    ShorterWord(n2, s2, n1, s1);
    var t1, t2 := n1 + " de " + s1, n2 + " de " + s2;
    assert n1 == t1[..|n1|] && n2 == t2[..|n2|];
    assert s1 == t1[|n1| + 4..] && s2 == t2[|n2| + 4..];
  }

  /** The same holds behind a common prefix. */
  lemma CancelPrefixedWord(p: string, n1: string, s1: string, n2: string, s2: string)
    requires ' ' !in n1 && ' ' !in n2
    requires p + n1 + " de " + s1 == p + n2 + " de " + s2
    ensures n1 == n2 && s1 == s2
  {
    var t1, t2 := p + n1 + " de " + s1, p + n2 + " de " + s2;
    assert t1[|p|..] == n1 + " de " + s1;
    assert t2[|p|..] == n2 + " de " + s2;
    CancelWord(n1, s1, n2, s2);
  }

  /** A shorter first word would put the space of " de " inside the other,
      space-free, word. */
  lemma ShorterWord(n1: string, s1: string, n2: string, s2: string)
    requires ' ' !in n2
    ensures |n1| < |n2| ==> n1 + " de " + s1 != n2 + " de " + s2
  {
    if |n1| < |n2| {
      var t1, t2 := n1 + " de " + s1, n2 + " de " + s2;
      assert t1[|n1|] == ' ' && t2[|n1|] == n2[|n1|];
    }
  }

  /** `s.split(sep)` for a one-character separator: always at least one field,
      and no field contains the separator. */
  function Split(s: string, sep: char): (r: seq<string>)
    ensures |r| >= 1
    ensures forall i :: 0 <= i < |r| ==> sep !in r[i]
  {
    if s == [] then [""]
    else
      var rest := Split(s[1..], sep);
      if s[0] == sep then [""] + rest else [[s[0]] + rest[0]] + rest[1..]
  }

  /** `fields.join(sep)`. */
  function Join(fields: seq<string>, sep: char): string
    requires |fields| >= 1
  {
    if |fields| == 1 then fields[0] else fields[0] + [sep] + Join(fields[1..], sep)
  }

  /** Splitting loses nothing: joining the fields gives the input back. */
  lemma {:induction false} JoinSplit(s: string, sep: char)
    ensures Join(Split(s, sep), sep) == s
  {
    if s != [] {
      var rest := Split(s[1..], sep);
      JoinSplit(s[1..], sep);
      if s[0] != sep {
        var r := Split(s, sep);
        if |rest| == 1 {
          assert r == [[s[0]] + rest[0]];
        } else {
          assert r[1..] == rest[1..];
          assert Join(r, sep) == [s[0]] + rest[0] + [sep] + Join(rest[1..], sep);
        }
      }
    }
  }

  /** Splitting text joined from separator-free fields gives exactly those fields. */
  lemma {:induction false} SplitJoin(fields: seq<string>, sep: char)
    requires |fields| >= 1
    requires forall i :: 0 <= i < |fields| ==> sep !in fields[i]
    ensures Split(Join(fields, sep), sep) == fields
  {
    if |fields| == 1 {
      SplitField(fields[0], [], sep);
      assert fields[0] + [] == fields[0];
      var r := Split(fields[0], sep);
      assert r == [r[0]] + r[1..];
    } else {
      var t := [sep] + Join(fields[1..], sep);
      SplitJoin(fields[1..], sep);
      assert t[1..] == Join(fields[1..], sep);
      assert Split(t, sep) == [""] + fields[1..];
      SplitField(fields[0], t, sep);
      assert Join(fields, sep) == fields[0] + t;
      var r := Split(fields[0] + t, sep);
      assert r[0] == fields[0] && r[1..] == fields[1..];
      assert r == [r[0]] + r[1..];
    }
  }

  /** A separator-free prefix glues onto the first field of what follows it. */
  lemma {:induction false} SplitField(f: string, tail: string, sep: char)
    requires sep !in f
    ensures Split(f + tail, sep)[0] == f + Split(tail, sep)[0]
    ensures Split(f + tail, sep)[1..] == Split(tail, sep)[1..]
  {
    if f != [] {
      var rest := Split(f[1..] + tail, sep);
      assert (f + tail)[1..] == f[1..] + tail;
      assert Split(f + tail, sep) == [[f[0]] + rest[0]] + rest[1..];
      SplitField(f[1..], tail, sep);
      assert f == [f[0]] + f[1..];
    } else {
      assert f + tail == tail;
    }
  }
}
