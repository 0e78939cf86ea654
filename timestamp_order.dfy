/**
 * Why sorting backup names sorts backups by time: every field of a
 * timestamp token has a fixed width (two digits, four for a year from 1000
 * on), so ordinal order on tokens is the order of the times they carry.
 */
module TimestampOrder {
  import opened Strings
  import opened Ordinal
  import opened Numerals
  import opened DateTimes
  import opened TimestampCodec

  /** Lexicographic order on equally long sequences of strings. */
  predicate LexLess(p: seq<string>, q: seq<string>)
    requires |p| == |q|
  {
    p != [] && (Less(p[0], q[0]) || (p[0] == q[0] && LexLess(p[1..], q[1..])))
  }

  /** `a` comes strictly before `b` to the second. */
  predicate EarlierSecond(a: DateTime, b: DateTime) {
    if a.year != b.year then a.year < b.year
    else if a.month != b.month then a.month < b.month
    else if a.day != b.day then a.day < b.day
    else if a.hour != b.hour then a.hour < b.hour
    else if a.minute != b.minute then a.minute < b.minute
    else a.second < b.second
  }

  /** After equally long heads, the heads decide unless they are equal. */
  lemma {:induction false} LessConcat(a1: string, r1: string, a2: string, r2: string)
    requires |a1| == |a2|
    ensures Less(a1 + r1, a2 + r2) <==> Less(a1, a2) || (a1 == a2 && Less(r1, r2))
    decreases |a1|
  {
    if a1 == [] {
      assert a1 + r1 == r1 && a2 + r2 == r2;
    } else {
      assert (a1 + r1)[0] == a1[0] && (a2 + r2)[0] == a2[0];
      assert (a1 + r1)[1..] == a1[1..] + r1 && (a2 + r2)[1..] == a2[1..] + r2;
      LessConcat(a1[1..], r1, a2[1..], r2);
      if a1[0] == a2[0] && a1[1..] == a2[1..] {
        assert a1 == [a1[0]] + a1[1..] && a2 == [a2[0]] + a2[1..];
      }
    }
  }

  /** Joining part by part equally long parts gives equally long strings,
      ordered lexicographically by their parts. */
  lemma {:induction false} LessJoin(p: seq<string>, q: seq<string>, sep: char)
    requires |p| == |q| >= 1
    requires forall k :: 0 <= k < |p| ==> |p[k]| == |q[k]|
    ensures |Join(p, sep)| == |Join(q, sep)|
    ensures Less(Join(p, sep), Join(q, sep)) <==> LexLess(p, q)
    decreases |p|
  {
    if |p| == 1 {
      assert !LexLess(p[1..], q[1..]);
    } else {
      var jp, jq := Join(p[1..], sep), Join(q[1..], sep);
      LessJoin(p[1..], q[1..], sep);
      LessConcat([sep], jp, [sep], jq);
      assert p[0] + [sep] + jp == p[0] + ([sep] + jp);
      assert q[0] + [sep] + jq == q[0] + ([sep] + jq);
      LessConcat(p[0], [sep] + jp, q[0], [sep] + jq);
    }
  }

  /** On equally long digit strings ordinal order is numeric order. */
  lemma {:induction false} LessDigits(s: string, t: string)
    requires |s| == |t| && AllDigits(s) && AllDigits(t)
    ensures Less(s, t) <==> DigitsValue(s) < DigitsValue(t)
    decreases |s|
  {
    if s == [] {
      assert !Less(s, t);
    } else {
      var s', t' := s[..|s| - 1], t[..|t| - 1];
      var c, d := s[|s| - 1], t[|t| - 1];
      assert s == s' + [c] && t == t' + [d];
      LessConcat(s', [c], t', [d]);
      assert Less([c], [d]) <==> c < d;
      LessDigits(s', t');
      LessDigits(t', s');
      LessTrichotomy(s', t');
    }
  }

  /** The numerals of 10 to 99 have two digits. */
  lemma DecimalTwoDigits(n: nat)
    requires 10 <= n < 100
    ensures |Decimal(n)| == 2
  {
    assert |Decimal(n / 10)| == 1;
  }

  /** The numerals of 1000 to 9999 have four digits. */
  lemma DecimalFourDigits(n: nat)
    requires 1000 <= n < 10000
    ensures |Decimal(n)| == 4
  {
    var a := n / 10;
    var b := a / 10;
    var c := b / 10;
    assert 1 <= c < 10;
    assert |Decimal(b)| == 2 by { assert Decimal(b) == Decimal(c) + [DigitChar(b % 10)]; }
    assert |Decimal(a)| == 3 by { assert Decimal(a) == Decimal(b) + [DigitChar(a % 10)]; }
  }

  /** `"00"` writes two digits below 100 and four from 1000 to 9999. */
  lemma Format00Width(x: nat)
    requires x < 100 || 1000 <= x < 10000
    ensures |Format00(x)| == if x < 100 then 2 else 4
  {
    if 10 <= x < 100 {
      DecimalTwoDigits(x);
    } else if x >= 1000 {
      DecimalFourDigits(x);
    }
  }

  /** Two numbers below 100, or two from 1000 to 9999, are ordered as their
      "00" numerals are, and have equal numerals only when they are equal. */
  lemma Format00Order(x: nat, y: nat)
    requires (x < 100 && y < 100) || (1000 <= x < 10000 && 1000 <= y < 10000)
    ensures |Format00(x)| == |Format00(y)|
    ensures Less(Format00(x), Format00(y)) <==> x < y
    ensures Format00(x) == Format00(y) <==> x == y
  {
    Format00Width(x);
    Format00Width(y);
    Format00RoundTrip(x);
    Format00RoundTrip(y);
    LessDigits(Format00(x), Format00(y));
  }

  /** When two sequences start with the numerals of two numbers of the same
      width class, the numbers decide unless they are equal. */
  lemma LexLessStep(x: nat, y: nat, p: seq<string>, q: seq<string>)
    requires (x < 100 && y < 100) || (1000 <= x < 10000 && 1000 <= y < 10000)
    requires |p| == |q| >= 1 && p[0] == Format00(x) && q[0] == Format00(y)
    ensures LexLess(p, q) <==> x < y || (x == y && LexLess(p[1..], q[1..]))
  {
    Format00Order(x, y);
  }

  /** The fields of two times with four-digit years are pairwise equally
      long and ordered as the times are. */
  lemma FieldsOrder(a: DateTime, b: DateTime)
    requires a.Valid() && b.Valid() && a.year >= 1000 && b.year >= 1000
    ensures forall k :: 0 <= k < 6 ==> |Fields(a)[k]| == |Fields(b)[k]|
    ensures LexLess(Fields(a), Fields(b)) <==> EarlierSecond(a, b)
  {
    var p, q := Fields(a), Fields(b);
    LexLessStep(a.year, b.year, p, q);
    var p1, q1 := p[1..], q[1..];
    LexLessStep(a.month, b.month, p1, q1);
    var p2, q2 := p1[1..], q1[1..];
    LexLessStep(a.day, b.day, p2, q2);
    var p3, q3 := p2[1..], q2[1..];
    LexLessStep(a.hour, b.hour, p3, q3);
    var p4, q4 := p3[1..], q3[1..];
    LexLessStep(a.minute, b.minute, p4, q4);
    var p5, q5 := p4[1..], q4[1..];
    LexLessStep(a.second, b.second, p5, q5);
    assert !LexLess(p5[1..], q5[1..]);
    FieldLengths(a, b);
  }

  /** Corresponding fields of two times with four-digit years are equally
      long. */
  lemma FieldLengths(a: DateTime, b: DateTime)
    requires a.Valid() && b.Valid() && a.year >= 1000 && b.year >= 1000
    ensures forall k :: 0 <= k < 6 ==> |Fields(a)[k]| == |Fields(b)[k]|
  {
    Format00Width(a.year);
    Format00Width(b.year);
    Format00Width(a.month);
    Format00Width(b.month);
    Format00Width(a.day);
    Format00Width(b.day);
    Format00Width(a.hour);
    Format00Width(b.hour);
    Format00Width(a.minute);
    Format00Width(b.minute);
    Format00Width(a.second);
    Format00Width(b.second);
  }

  /** Tokens of times with four-digit years sort chronologically. */
  lemma TokenOrder(a: DateTime, b: DateTime)
    requires a.Valid() && b.Valid() && a.year >= 1000 && b.year >= 1000
    ensures Less(FormatTimestamp(a), FormatTimestamp(b)) <==> EarlierSecond(a, b)
  {
    var ja, jb := Join(Fields(a), '-'), Join(Fields(b), '-');
    FieldsOrder(a, b);
    LessJoin(Fields(a), Fields(b), '-');
    LessConcat("(", ja + ")", "(", jb + ")");
    LessConcat(ja, ")", jb, ")");
    LessIrreflexive(")");
    assert FormatTimestamp(a) == "(" + (ja + ")");
    assert FormatTimestamp(b) == "(" + (jb + ")");
  }

  /** Names made of one prefix and two tokens sort as the tokens' times. */
  lemma StampedNameOrder(prefix: string, a: DateTime, b: DateTime)
    requires a.Valid() && b.Valid() && a.year >= 1000 && b.year >= 1000
    ensures Less(prefix + FormatTimestamp(a), prefix + FormatTimestamp(b)) <==> EarlierSecond(a, b)
  {
    LessConcat(prefix, FormatTimestamp(a), prefix, FormatTimestamp(b));
    LessIrreflexive(prefix);
    TokenOrder(a, b);
  }
}
