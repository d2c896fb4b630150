/** The string operations the server and client perform: JavaScript's `trim` and
    single-character `split`, decimal rendering of integers in template literals,
    and SQLite's BINARY collation used by `ORDER BY text`. */
module Strings {
  import Seqs

  // ---------------------------------------------------------------- trim

  /** The characters `String.prototype.trim` strips: WhiteSpace and LineTerminator of ECMA-262. */
  predicate IsJsSpace(c: char) {
    || c == ' ' || c == '\t' || c == '\n' || c == '\r'
    || c == '\U{000B}' || c == '\U{000C}' || c == '\U{00A0}' || c == '\U{FEFF}'
    || c == '\U{1680}' || ('\U{2000}' <= c <= '\U{200A}')
    || c == '\U{2028}' || c == '\U{2029}' || c == '\U{202F}' || c == '\U{205F}' || c == '\U{3000}'
  }

  /** Every character of `s` is white space (true of ""). */
  predicate AllSpace(s: string) {
    Seqs.All(s, IsJsSpace)
  }

  /** How many white-space characters `trim` removes from the front of `s`. */
  function Lead(s: string): (n: nat)
    ensures n <= |s|
  {
    Seqs.LeadLength(s, IsJsSpace)
  }

  /** JavaScript `s.trim()`: the middle of `s` between leading and trailing white space. */
  function Trim(s: string): (r: string)
    ensures Lead(s) + |r| <= |s| && r == s[Lead(s)..Lead(s) + |r|]
    ensures AllSpace(s[..Lead(s)]) && AllSpace(s[Lead(s) + |r|..])
    ensures r == [] || (!IsJsSpace(r[0]) && !IsJsSpace(r[|r| - 1]))
  {
    Seqs.Strip(s, IsJsSpace)
  }

  /** A string trims to "" exactly when it is blank: the guard `!x.trim()` rejects exactly the blank inputs. */
  lemma TrimEmptyIffBlank(s: string)
    ensures Trim(s) == "" <==> AllSpace(s)
  {
    Seqs.StripEmptyIffAll(s, IsJsSpace);
  }

  // ---------------------------------------------------------------- split / join

  /** JavaScript `s.split(sep)` for a one-character separator: the pieces between separators,
      empty pieces included; "" splits to [""]. */
  function Split(s: string, sep: char): (parts: seq<string>)
    ensures |parts| == multiset(s)[sep] + 1
    ensures forall i :: 0 <= i < |parts| ==> sep !in parts[i]
  {
    if |s| == 0 then [""]
    else
      assert s == [s[0]] + s[1..];
      var rest := Split(s[1..], sep);
      if s[0] == sep then [""] + rest
      else [[s[0]] + rest[0]] + rest[1..]
  }

  /** JavaScript `parts.join(sep)`. */
  function Join(parts: seq<string>, sep: char): string
    requires |parts| >= 1
  {
    if |parts| == 1 then parts[0] else parts[0] + [sep] + Join(parts[1..], sep)
  }

  /** Joining the pieces back with the separator restores the original string. */
  lemma {:induction false} JoinSplit(s: string, sep: char)
    ensures Join(Split(s, sep), sep) == s
  {
    if |s| > 0 {
      JoinSplit(s[1..], sep);
      var rest := Split(s[1..], sep);
      if s[0] != sep && |rest| > 1 {
        assert Split(s, sep)[1..] == rest[1..];
      }
    }
  }

  /** A string without the separator splits into itself alone. */
  lemma {:induction false} SplitNoSeparator(a: string, sep: char)
    requires sep !in a
    ensures Split(a, sep) == [a]
  {
    if |a| > 0 {
      SplitNoSeparator(a[1..], sep);
      assert [a[0]] + a[1..] == a;
    }
  }

  /** Splitting at the first separator: a separator-free head becomes the first piece. */
  lemma {:induction false} SplitAtFirst(a: string, b: string, sep: char)
    requires sep !in a
    ensures Split(a + [sep] + b, sep) == [a] + Split(b, sep)
  {
    var s := a + [sep] + b;
    if |a| == 0 {
      assert s[1..] == b;
    } else {
      assert s[1..] == a[1..] + [sep] + b;
      SplitAtFirst(a[1..], b, sep);
      assert [a[0]] + a[1..] == a;
    }
  }

  /** Splitting a join of separator-free pieces gives the pieces back. */
  lemma {:induction false} SplitJoin(parts: seq<string>, sep: char)
    requires |parts| >= 1
    requires forall i :: 0 <= i < |parts| ==> sep !in parts[i]
    ensures Split(Join(parts, sep), sep) == parts
  {
    if |parts| == 1 {
      SplitNoSeparator(parts[0], sep);
    } else {
      SplitJoin(parts[1..], sep);
      SplitAtFirst(parts[0], Join(parts[1..], sep), sep);
      assert [parts[0]] + parts[1..] == parts;
    }
  }

  // ---------------------------------------------------------------- decimal numbers

  predicate IsDigit(c: char) {
    '0' <= c <= '9'
  }

  predicate AllDigits(s: string) {
    forall i :: 0 <= i < |s| ==> IsDigit(s[i])
  }

  function DigitChar(d: nat): (c: char)
    requires d < 10
    ensures IsDigit(c)
  {
    (48 + d) as char
  }

  /** The decimal text of a natural number, without leading zeros, as JavaScript prints an integer. */
  function NatToDecimal(n: nat): (r: string)
    ensures |r| >= 1 && AllDigits(r)
    ensures r[0] == '0' ==> n == 0
  {
    if n < 10 then [DigitChar(n)] else NatToDecimal(n / 10) + [DigitChar(n % 10)]
  }

  /** The number a string of decimal digits denotes. */
  function DecimalValue(s: string): nat
    requires AllDigits(s)
  {
    if |s| == 0 then 0 else 10 * DecimalValue(s[..|s| - 1]) + (s[|s| - 1] as int - 48)
  }

  /** Reading back the printed decimal gives the number. */
  lemma {:induction false} DecimalRoundTrip(n: nat)
    ensures DecimalValue(NatToDecimal(n)) == n
  {
    if n >= 10 {
      DecimalRoundTrip(n / 10);
      var r := NatToDecimal(n);
      assert r[..|r| - 1] == NatToDecimal(n / 10);
    }
  }

  /** The decimal text of an integer: a minus sign before the digits of a negative one. */
  function IntToDecimal(n: int): (r: string)
    ensures |r| >= 1 && '_' !in r
  {
    if n < 0 then "-" + NatToDecimal(-n) else NatToDecimal(n)
  }

  /** Different integers print differently. */
  lemma IntToDecimalInjective(a: int, b: int)
    requires IntToDecimal(a) == IntToDecimal(b)
    ensures a == b
  {
    var s := IntToDecimal(a);
    assert IsDigit(NatToDecimal(if a < 0 then -a else a)[0]);
    assert IsDigit(NatToDecimal(if b < 0 then -b else b)[0]);
    assert (s[0] == '-' <==> a < 0) && (s[0] == '-' <==> b < 0);
    if a < 0 {
      assert s[1..] == NatToDecimal(-a) == NatToDecimal(-b);
      DecimalRoundTrip(-a);
      DecimalRoundTrip(-b);
    } else {
      DecimalRoundTrip(a);
      DecimalRoundTrip(b);
    }
  }

  // ---------------------------------------------------------------- collation

  /** SQLite's BINARY collation: `a` sorts at or before `b`, comparing code points
      left to right, a proper prefix first. */
  predicate Leq(a: string, b: string) {
    |a| == 0 || (|b| > 0 && (a[0] < b[0] || (a[0] == b[0] && Leq(a[1..], b[1..]))))
  }

  lemma {:induction false} LeqReflexive(a: string)
    ensures Leq(a, a)
  {
    if |a| > 0 {
      LeqReflexive(a[1..]);
    }
  }

  lemma {:induction false} LeqTotal(a: string, b: string)
    ensures Leq(a, b) || Leq(b, a)
  {
    if |a| > 0 && |b| > 0 && a[0] == b[0] {
      LeqTotal(a[1..], b[1..]);
    }
  }

  lemma {:induction false} LeqAntisymmetric(a: string, b: string)
    requires Leq(a, b) && Leq(b, a)
    ensures a == b
  {
    if |a| > 0 && |b| > 0 {
      LeqAntisymmetric(a[1..], b[1..]);
      assert a == [a[0]] + a[1..] && b == [b[0]] + b[1..];
    }
  }

  lemma {:induction false} LeqTransitive(a: string, b: string, c: string)
    requires Leq(a, b) && Leq(b, c)
    ensures Leq(a, c)
  {
    if |a| > 0 && |b| > 0 && |c| > 0 && a[0] == b[0] == c[0] {
      LeqTransitive(a[1..], b[1..], c[1..]);
    }
  }
}
