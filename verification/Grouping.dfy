/**
The digit grouping of the humanize package: by division (`Comma`, `BigComma`), from the
left (`Commaf`) and from the right (`FormatFloat`), against one definition.
*/
module Grouping {
  // ---------- decimal digits ----------

  function DigitChar(d: nat): char
    requires d < 10
  {
    '0' + d as char
  }

  /** What `strconv.FormatInt` writes in base 10. */
  function Dec(n: nat): (s: string)
    ensures s != ""
    ensures forall i :: 0 <= i < |s| ==> '0' <= s[i] <= '9'
  {
    if n < 10 then [DigitChar(n)] else Dec(n / 10) + [DigitChar(n % 10)]
  }

  function DigitValue(c: char): nat {
    if '0' <= c <= '9' then (c - '0') as int else 0
  }

  /** Reading digits back. */
  function Value(s: string): nat {
    if s == "" then 0 else 10 * Value(s[..|s| - 1]) + DigitValue(s[|s| - 1])
  }

  lemma {:induction false} ValueOfDec(n: nat)
    ensures Value(Dec(n)) == n
  {
    var s := Dec(n);
    if n < 10 {
      assert s[..0] == "";
    } else {
      ValueOfDec(n / 10);
      assert s[..|s| - 1] == Dec(n / 10);
    }
  }

  /** Exactly three digits. */
  function Pad3(m: nat): string
    requires m < 1000
  {
    [DigitChar(m / 100), DigitChar(m / 10 % 10), DigitChar(m % 10)]
  }

  lemma {:induction false} DigitsOfThousand(n: nat)
    ensures n / 10 / 10 == n / 100 && n / 100 / 10 == n / 1000
    ensures n % 10 == n % 1000 % 10 && n / 10 % 10 == n % 1000 / 10 % 10
    ensures n / 100 % 10 == n % 1000 / 100
  {
  }

  lemma {:induction false} DecStep(n: nat)
    requires n >= 10
    ensures Dec(n) == Dec(n / 10) + [DigitChar(n % 10)]
  {
  }

  lemma {:induction false} DecSplit(n: nat)
    requires n >= 1000
    ensures Dec(n) == Dec(n / 1000) + Pad3(n % 1000)
  {
    hide Dec;
    hide DigitChar;
    DigitsOfThousand(n);
    DecStep(n);
    DecStep(n / 10);
    DecStep(n / 100);
  }

  /** A group as the source pads it. */
  function Padded(s: string): string {
    if |s| == 2 then "0" + s else if |s| == 1 then "00" + s else s
  }

  lemma {:induction false} DecShort(n: nat)
    requires n < 1000
    ensures |Dec(n)| == (if n < 10 then 1 else if n < 100 then 2 else 3)
    ensures Padded(Dec(n)) == Pad3(n)
  {
    DigitsOfThousand(n);
    if n < 10 {
      assert Dec(n) == [DigitChar(n)];
    } else if n < 100 {
      DecStep(n);
      assert Dec(n / 10) == [DigitChar(n / 10)];
    } else {
      assert Dec(n) == [DigitChar(n / 100), DigitChar(n / 10 % 10), DigitChar(n % 10)] by {
        hide DigitChar;
        DecStep(n);
        DecStep(n / 10);
        assert Dec(n / 100) == [DigitChar(n / 100)];
      }
    }
  }

  // ---------- grouping ----------

  /** Separators between groups of three digits, counted from the right. */
  function Grouped(s: string, sep: string): string {
    if |s| <= 3 then s else Grouped(s[..|s| - 3], sep) + sep + s[|s| - 3..]
  }

  function WithoutCommas(s: string): string {
    if s == "" then "" else WithoutCommas(s[..|s| - 1]) + (if s[|s| - 1] == ',' then "" else [s[|s| - 1]])
  }

  lemma {:induction false} WithoutCommasConcat(a: string, b: string)
    ensures WithoutCommas(a + b) == WithoutCommas(a) + WithoutCommas(b)
  {
    if b == "" {
      assert a + b == a;
    } else {
      assert (a + b)[..|a + b| - 1] == a + b[..|b| - 1];
      WithoutCommasConcat(a, b[..|b| - 1]);
    }
  }

  lemma {:induction false} WithoutCommasSame(s: string)
    requires ',' !in s
    ensures WithoutCommas(s) == s
  {
    if s != "" {
      WithoutCommasSame(s[..|s| - 1]);
    }
  }

  lemma {:induction false} UngroupGrouped(s: string)
    requires ',' !in s
    ensures WithoutCommas(Grouped(s, ",")) == s
  {
    if |s| <= 3 {
      WithoutCommasSame(s);
    } else {
      var head, tail := s[..|s| - 3], s[|s| - 3..];
      UngroupGrouped(head);
      WithoutCommasSame(tail);
      DropOneComma(Grouped(head, ","), tail);
      assert s == head + tail;
    }
  }

  lemma {:induction false} DropOneComma(a: string, b: string)
    ensures WithoutCommas(a + "," + b) == WithoutCommas(a) + WithoutCommas(b)
  {
    WithoutCommasConcat(a + ",", b);
    var t := a + ",";
    assert t[..|t| - 1] == a;
  }

  predicate CommaAt(s: string, k: nat)
    requires k < |s|
  {
    s[|s| - 1 - k] == ','
  }

  lemma {:induction false} AppendedPlaces(g: string, tail: string, k: nat)
    requires |tail| == 3 && ',' !in tail && k < |g| + 4
    ensures |g + "," + tail| == |g| + 4
    ensures CommaAt(g + "," + tail, k) <==> if k < 4 then k == 3 else CommaAt(g, k - 4)
  {
  }

  /** Counted from the right, every fourth character is a comma and no other is. */
  lemma {:induction false} CommaPlaces(s: string, k: nat)
    requires ',' !in s && k < |Grouped(s, ",")|
    ensures CommaAt(Grouped(s, ","), k) <==> k % 4 == 3
  {
    if |s| > 3 {
      var head, tail := s[..|s| - 3], s[|s| - 3..];
      assert Grouped(s, ",") == Grouped(head, ",") + "," + tail;
      hide Grouped;
      AppendedPlaces(Grouped(head, ","), tail, k);
      if k >= 4 {
        CommaPlaces(head, k - 4);
      }
    }
  }

  lemma {:induction false} NoLeadingComma(s: string)
    requires s != "" && ',' !in s
    ensures |Grouped(s, ",")| > 0 && Grouped(s, ",")[0] != ','
  {
    if |s| > 3 {
      NoLeadingComma(s[..|s| - 3]);
    }
  }

  /** Removing the commas and reading the digits gives the number back. */
  lemma {:induction false} GroupedReadsBack(n: nat)
    ensures Value(WithoutCommas(Grouped(Dec(n), ","))) == n
  {
    UngroupGrouped(Dec(n));
    ValueOfDec(n);
  }

  lemma {:induction false} GroupedStep(n: nat)
    requires n >= 1000
    ensures Grouped(Dec(n), ",") == Grouped(Dec(n / 1000), ",") + "," + Pad3(n % 1000)
  {
    DecSplit(n);
    var s := Dec(n);
    assert s[..|s| - 3] == Dec(n / 1000) && s[|s| - 3..] == Pad3(n % 1000);
  }

  // ---------- joining parts ----------

  function Join(parts: seq<string>): string {
    if parts == [] then "" else parts[0] + Tail(parts[1..])
  }

  function Tail(parts: seq<string>): string {
    if parts == [] then "" else "," + parts[0] + Tail(parts[1..])
  }

  /** One group of three digits, padded the way the source does it. */
  method Group(m: nat) returns (part: string)
    requires m < 1000
    ensures part == Pad3(m)
  {
    part := Dec(m);
    DecShort(m);
    if |part| == 2 {
      part := "0" + part;
    } else if |part| == 1 {
      part := "00" + part;
    }
  }

  /** The number of groups after the first: how often 1000 divides before less than 1000 is left. */
  function Groups(n: nat): nat { if n < 1000 then 0 else 1 + Groups(n / 1000) }

  function Leading(n: nat): nat { if n < 1000 then n else Leading(n / 1000) }

  /** What is written so far: the groups split off, and the number that is left. */
  ghost predicate Splitting(n: nat, v: nat, parts: seq<string>, j: int) {
    && 0 <= j < |parts|
    && Grouped(Dec(n), ",") == Grouped(Dec(v), ",") + Tail(parts[j + 1..])
  }

  lemma {:induction false} SplitNone(n: nat, parts: seq<string>)
    requires parts != []
    ensures Splitting(n, n, parts, |parts| - 1)
  {
    assert parts[|parts|..] == [];
  }

  lemma {:induction false} SplitOne(n: nat, v: nat, parts: seq<string>, j: int)
    requires Splitting(n, v, parts, j) && v > 999 && j > 0
    ensures Splitting(n, v / 1000, parts[j := Pad3(v % 1000)], j - 1)
  {
    var next := parts[j := Pad3(v % 1000)];
    GroupedStep(v);
    assert next[j..] == [Pad3(v % 1000)] + parts[j + 1..];
    assert next[j..][1..] == parts[j + 1..];
    Regroup(Grouped(Dec(v / 1000), ","), ",", Pad3(v % 1000), Tail(parts[j + 1..]));
  }

  lemma {:induction false} Regroup(a: string, b: string, c: string, d: string)
    ensures (a + b + c) + d == a + (b + c + d)
  {
  }

  lemma {:induction false} SplitDone(n: nat, v: nat, parts: seq<string>, j: int)
    requires Splitting(n, v, parts, j) && v < 1000
    ensures Join(parts[j := Dec(v)][j..]) == Grouped(Dec(n), ",")
  {
    DecShort(v);
    var last := parts[j := Dec(v)];
    assert last[j..][1..] == parts[j + 1..];
  }

  // ---------- Comma ----------

  const MIN_INT64 := -0x8000_0000_0000_0000
  const MAX_INT64 := 0x7fff_ffff_ffff_ffff

  /** The text of an integer with commas. */
  function CommaText(v: int): string {
    if v < 0 then "-" + Grouped(Dec(-v), ",") else Grouped(Dec(v), ",")
  }

  /** Reading such a text: a sign, and digits with commas between them. */
  function ReadBack(s: string): int {
    if s != "" && s[0] == '-' then 0 - Value(WithoutCommas(s[1..])) else Value(WithoutCommas(s))
  }

  /** Every integer is read back from its text, sign included. */
  lemma {:induction false} CommaTextReadsBack(v: int)
    ensures ReadBack(CommaText(v)) == v
  {
    hide Dec, Grouped, WithoutCommas, Value;
    if v < 0 {
      GroupedReadsBack(-v);
      assert CommaText(v)[1..] == Grouped(Dec(-v), ",");
    } else {
      GroupedReadsBack(v);
      NoLeadingSign(Dec(v));
    }
  }

  lemma {:induction false} NoLeadingSign(s: string)
    requires s != "" && s[0] != '-'
    ensures Grouped(s, ",") != "" && Grouped(s, ",")[0] != '-'
  {
    if |s| > 3 {
      NoLeadingSign(s[..|s| - 3]);
    }
  }

  /** No digit is written in vain: only zero starts with a zero. */
  lemma {:induction false} NoLeadingZero(n: nat)
    requires n > 0
    ensures Dec(n)[0] != '0'
  {
    if n >= 10 {
      NoLeadingZero(n / 10);
    }
  }

  function Pow1000(k: nat): nat { if k == 0 then 1 else 1000 * Pow1000(k - 1) }

  lemma {:induction false} Int64HasSevenGroups()
    ensures MAX_INT64 < Pow1000(7)
  {
    assert Pow1000(7) == 1000 * Pow1000(6);
    assert Pow1000(6) == 1000 * Pow1000(5);
    assert Pow1000(5) == 1000 * Pow1000(4);
    assert Pow1000(4) == 1000 * Pow1000(3);
    assert Pow1000(3) == 1000 * Pow1000(2);
  }

  lemma {:induction false} OneMoreGroup(n: nat, head: string, tail: string)
    requires n >= 1000 && Grouped(Dec(n / 1000), ",") == head && Pad3(n % 1000) == tail
    ensures Grouped(Dec(n), ",") == head + "," + tail
  {
    GroupedStep(n);
  }

  lemma {:induction false} PadLiterals()
    ensures Pad3(808) == "808" && Pad3(775) == "775" && Pad3(854) == "854" && Pad3(36) == "036"
    ensures Pad3(372) == "372" && Pad3(223) == "223"
  {
  }

  lemma {:induction false} NineMillion()
    ensures Grouped(Dec(9223372), ",") == "9,223,372"
  {
    PadLiterals();
    assert Grouped(Dec(9), ",") == "9";
    hide Dec;
    hide Grouped;
    hide Pad3;
    OneMoreGroup(9223, "9", "223");
    OneMoreGroup(9223372, "9,223", "372");
  }

  lemma {:induction false} NineTrillion()
    ensures Grouped(Dec(9223372036854), ",") == "9,223,372,036,854"
  {
    NineMillion();
    PadLiterals();
    hide *;
    OneMoreGroup(9223372036, "9,223,372", "036");
    OneMoreGroup(9223372036854, "9,223,372,036", "854");
  }

  /** The constant returned for the least value, which cannot be negated, is the right text. */
  lemma {:induction false} MinInt64Text()
    ensures CommaText(MIN_INT64) == "-9,223,372,036,854,775,808"
  {
    NineTrillion();
    PadLiterals();
    hide Dec;
    hide Grouped;
    hide Pad3;
    OneMoreGroup(9223372036854775, "9,223,372,036,854", "775");
    OneMoreGroup(9223372036854775808, "9,223,372,036,854,775", "808");
  }

  /** Seven slots are enough for every int64. */
  method Comma(n: int) returns (r: string)
    requires MIN_INT64 <= n <= MAX_INT64
    ensures r == CommaText(n)
  {
    if n == MIN_INT64 {
      MinInt64Text();
      return "-9,223,372,036,854,775,808";
    }
    var sign, v := "", n;
    if v < 0 {
      sign := "-";
      v := 0 - v;
    }
    var parts := ["", "", "", "", "", "", ""];
    var j := |parts| - 1;
    ghost var n0 := v;
    Int64HasSevenGroups();
    SplitNone(n0, parts);
    hide Dec;
    hide Grouped;
    hide Splitting;
    while v > 999
      invariant |parts| == 7 && 0 <= j < 7 && v >= 0 && Splitting(n0, v, parts, j) && v < Pow1000(j + 1)
      decreases v
    {
      assert j > 0;
      var part := Group(v % 1000);
      SplitOne(n0, v, parts, j);
      parts := parts[j := part];
      v := v / 1000;
      j := j - 1;
    }
    SplitDone(n0, v, parts, j);
    parts := parts[j := Dec(v)];
    r := sign + Join(parts[j..]);
  }

  // ---------- Commaf: the integer part ----------

  lemma {:induction false} NextGroup(digits: string, pos: nat)
    requires pos + 3 <= |digits|
    ensures Grouped(digits[..pos + 3], ",") ==
      if pos == 0 then digits[..3] else Grouped(digits[..pos], ",") + "," + digits[pos..pos + 3]
  {
    var longer := digits[..pos + 3];
    assert longer[..pos] == digits[..pos] && longer[pos..] == digits[pos..pos + 3];
  }

  lemma {:induction false} FirstGroup(digits: string, pos: nat)
    requires pos <= 3 && pos <= |digits|
    ensures Grouped(digits[..pos], ",") == digits[..pos]
  {
  }

  method GroupFromLeft(digits: string) returns (buf: string)
    requires digits != ""
    ensures buf == Grouped(digits, ",")
  {
    hide *;
    buf := "";
    var pos := 0;
    if |digits| % 3 != 0 {
      pos := pos + |digits| % 3;
      FirstGroup(digits, pos);
      buf := buf + digits[..pos];
      buf := buf + ",";
    }
    while pos < |digits|
      invariant 0 <= pos <= |digits| && (|digits| - pos) % 3 == 0
      invariant pos == 0 ==> buf == ""
      invariant pos > 0 ==> buf == Grouped(digits[..pos], ",") + ","
    {
      NextGroup(digits, pos);
      buf := buf + digits[pos..pos + 3];
      buf := buf + ",";
      pos := pos + 3;
    }
    assert digits[..pos] == digits;
    buf := buf[..|buf| - 1];
  }

  // ---------- FormatFloat: the thousands separator ----------

  lemma {:induction false} NoSeparator(s: string)
    ensures Grouped(s, "") == s
  {
    if |s| > 3 {
      NoSeparator(s[..|s| - 3]);
    }
  }

  lemma {:induction false} SeparateOne(digits: string, sep: string, i: nat, tail: string)
    requires i > 0 && i + 3 <= |digits|
    ensures Grouped(digits[..i + 3], sep) + tail == Grouped(digits[..i], sep) + (sep + digits[i..i + 3] + tail)
  {
    var head := digits[..i + 3];
    assert head[..i] == digits[..i] && head[i..] == digits[i..i + 3];
    Regroup(Grouped(digits[..i], sep), sep, digits[i..i + 3], tail);
  }

  method InsertSeparators(digits: string, sep: string) returns (s: string)
    ensures s == Grouped(digits, sep)
  {
    s := digits;
    NoSeparator(digits);
    if |sep| > 0 {
      var i := |s|;
      ghost var tail := "";
      assert digits[..i] == digits;
      while i > 3
        invariant 0 <= i <= |digits| && s == digits[..i] + tail
        invariant Grouped(digits, sep) == Grouped(digits[..i], sep) + tail
      {
        i := i - 3;
        SeparateOne(digits, sep, i, tail);
        assert s[..i] == digits[..i] && s[i..] == digits[i..i + 3] + tail;
        s := s[..i] + sep + s[i..];
        tail := sep + digits[i..i + 3] + tail;
      }
    }
  }

  /** Division, chunks from the left and insertion from the right give one string, which reads back as the number. */
  method GroupingsAgree(n: nat) returns (divided: string, chunked: string, inserted: string)
    requires n <= MAX_INT64
    ensures divided == chunked == inserted
    ensures Value(WithoutCommas(divided)) == n
  {
    divided := Comma(n);
    chunked := GroupFromLeft(Dec(n));
    inserted := InsertSeparators(Dec(n), ",");
    GroupedReadsBack(n);
  }

  // ---------- BigComma ----------

  /** A big integer is an object whose operations write into it. */
  class BigInt {
    var v: int

    constructor (v: int)
      ensures this.v == v
    {
      this.v := v;
    }

    method Abs()
      modifies this
      ensures v == if old(v) < 0 then -old(v) else old(v)
    {
      v := if v < 0 then -v else v;
    }

    /** Divides in place and returns the remainder. */
    method DivMod(d: nat) returns (m: nat)
      requires d > 0 && v >= 0
      modifies this
      ensures v == old(v) / d && m == old(v) % d
    {
      m := v % d;
      v := v / d;
    }
  }

  lemma {:induction false} Twice(q: nat, base: nat)
    requires base > 1
    ensures q * base >= q + q
  {
    assert q * base == q * (base - 2) + q * 2;
    assert q * (base - 2) >= 0;
  }

  function Joined(q: int, base: nat, r: nat): int { q * base + r }

  lemma {:induction false} Division(n: nat, base: nat)
    requires base > 1
    ensures Joined(n / base, base, n % base) == n && 0 <= n / base <= n && (n > 0 ==> n / base < n)
  {
    Twice(n / base, base);
  }

  /** How often `base` divides before less than it is left. */
  function Magnitude(n: nat, base: nat): nat
    requires base > 1
    decreases n
  {
    Division(n, base);
    if n < base then 0 else 1 + Magnitude(n / base, base)
  }

  /** The number with `k` digits of the base cut off. */
  function Shifted(n: nat, base: nat, k: nat): nat
    requires base > 1
  {
    if k == 0 then n else Shifted(n, base, k - 1) / base
  }

  /**
  `oom`: the order of magnitude, and the number with all its digits but the first two
  cut off, the second behind the point.  A negative number is below every base.  The
  result is computed over the reals.
  */
  method Oom(n: BigInt, base: nat) returns (value: real, mag: nat)
    requires base > 1
    modifies n
    ensures old(n.v) < 0 ==> mag == 0 && value == old(n.v) as real && n.v == old(n.v)
    ensures old(n.v) >= 0 ==> mag == Magnitude(old(n.v), base) && n.v == Shifted(old(n.v), base, mag) < base
    ensures old(n.v) >= 0 ==>
      if mag == 0 then value == old(n.v) as real
      else value * base as real == Shifted(old(n.v), base, mag - 1) as real
  {
    hide Magnitude, Joined;
    mag := 0;
    var m := 0;
    while n.v >= base
      invariant old(n.v) < 0 ==> n.v == old(n.v) && mag == 0
      invariant old(n.v) >= 0 ==> n.v == Shifted(old(n.v), base, mag)
      invariant old(n.v) >= 0 ==> n.v >= 0 && mag + Magnitude(n.v, base) == Magnitude(old(n.v), base)
      invariant if mag == 0 then m == 0 else n.v >= 0 && Joined(n.v, base, m) == Shifted(old(n.v), base, mag - 1)
      decreases n.v
    {
      Division(n.v, base);
      OneDigit(n.v, base);
      m := n.DivMod(base);
      mag := mag + 1;
    }
    if n.v >= 0 {
      OneDigit(n.v, base);
    }
    value := n.v as real + m as real / base as real;
    Recombined(n.v, m, base);
  }

  lemma {:induction false} OneDigit(n: nat, base: nat)
    requires base > 1
    ensures Magnitude(n, base) == if n < base then 0 else 1 + Magnitude(n / base, base)
  {
  }

  lemma {:induction false} Recombined(n: int, m: nat, base: nat)
    requires base > 1
    ensures (n as real + m as real / base as real) * base as real == Joined(n, base, m) as real
  {
  }

  lemma {:induction false} MagnitudeIsGroups(n: nat)
    ensures Magnitude(n, 1000) == Groups(n)
  {
    if n >= 1000 {
      MagnitudeIsGroups(n / 1000);
    }
  }

  lemma {:induction false} LeadingIsAll(n: nat)
    ensures Leading(n) <= n && (Leading(n) == n <==> n < 1000)
  {
    if n >= 1000 {
      LeadingIsAll(n / 1000);
    }
  }

  /**
  The slots counted by `Oom` are exactly those the division loop fills, so the index ends
  at 0.  The argument is left holding its leading group: its sign and the rest are gone,
  so it survives exactly when it is one group and not negative.
  */
  method BigComma(b: BigInt) returns (r: string)
    modifies b
    ensures r == CommaText(old(b.v))
    ensures b.v == Leading(if old(b.v) < 0 then -old(b.v) else old(b.v))
    ensures b.v == old(b.v) <==> 0 <= old(b.v) < 1000
  {
    hide Dec, Grouped, Splitting, Magnitude, Shifted;
    var sign := "";
    if b.v < 0 {
      sign := "-";
      b.Abs();
    }
    ghost var n := b.v;
    var c := new BigInt(b.v);
    var _, m := Oom(c, 1000);
    MagnitudeIsGroups(n);
    LeadingIsAll(n);
    var parts: seq<string> := seq(m + 1, _ => "");
    var j := |parts| - 1;
    SplitNone(n, parts);
    while b.v >= 1000
      invariant |parts| == m + 1 && b.v >= 0 && 0 <= j <= m && Splitting(n, b.v, parts, j)
      invariant j == Groups(b.v) && Leading(b.v) == Leading(n)
      decreases b.v
    {
      ghost var v := b.v;
      var mod := b.DivMod(1000);
      var part := Group(mod);
      SplitOne(n, v, parts, j);
      parts := parts[j := part];
      j := j - 1;
    }
    assert j == 0;
    SplitDone(n, b.v, parts, j);
    parts := parts[j := Dec(b.v)];
    r := sign + Join(parts[j..]);
  }

  /** On every int64, the least included, `BigComma` writes what `Comma` writes. */
  method BigCommaIsComma(n: int) returns (big: string, small: string)
    requires MIN_INT64 <= n <= MAX_INT64
    ensures big == small
  {
    var b := new BigInt(n);
    big := BigComma(b);
    small := Comma(n);
  }
}
