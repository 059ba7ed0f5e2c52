/**
 * The pieces of Python's string handling the tracker relies on:
 * `%d` and `%02d` rendering, the `int()` constructor applied to a string,
 * and `str.split` with a one-character separator (with `str.join` as its inverse).
 */
module Text {
  import opened Options

  predicate IsDigit(c: char) { '0' <= c <= '9' }

  function DigitValue(c: char): (d: nat)
    requires IsDigit(c)
    ensures d < 10
  {
    c as int - '0' as int
  }

  function DigitChar(d: nat): (c: char)
    requires d < 10
    ensures IsDigit(c) && DigitValue(c) == d
  {
    ('0' as int + d) as char
  }

  predicate AllDigits(s: string) { forall i :: 0 <= i < |s| ==> IsDigit(s[i]) }

  /** The value of a string of decimal digits, most significant first (leading zeros allowed). */
  function DigitsValue(s: string): nat
    requires AllDigits(s)
  {
    if s == [] then 0 else DigitsValue(s[..|s| - 1]) * 10 + DigitValue(s[|s| - 1])
  }

  /** `"%d" % n` for a natural number: the shortest decimal numeral of `n`. */
  function NatText(n: nat): (s: string)
    ensures 1 <= |s| && AllDigits(s)
    ensures s[0] == '0' ==> s == "0"
  {
    if n < 10 then [DigitChar(n)] else NatText(n / 10) + [DigitChar(n % 10)]
  }

  lemma {:induction false} NatTextValue(n: nat)
    ensures DigitsValue(NatText(n)) == n
  {
    if n >= 10 {
      var s := NatText(n);
      assert s[..|s| - 1] == NatText(n / 10);
      NatTextValue(n / 10);
    }
  }

  /** `"%d" % i`: a minus sign before the numeral of a negative number. */
  function IntText(i: int): (s: string)
    ensures 1 <= |s| && (s[0] == '-' || IsDigit(s[0])) && IsDigit(s[|s| - 1])
    ensures forall k :: 0 <= k < |s| ==> IsDigit(s[k]) || (k == 0 && s[k] == '-')
  {
    if i < 0 then "-" + NatText(-i) else NatText(i)
  }

  /** `"%02d" % n` for `0 <= n < 100`: always two digits. */
  function Pad2(n: nat): (s: string)
    requires n < 100
    ensures |s| == 2 && AllDigits(s) && DigitsValue(s) == n
  {
    var s := [DigitChar(n / 10), DigitChar(n % 10)];
    assert s[..1] == [DigitChar(n / 10)] && s[..1][..0] == [];
    assert DigitsValue(s[..1]) == n / 10;
    s
  }

  /** The whitespace that Python's `int()` strips from both ends (the ASCII part of it). */
  predicate IsSpace(c: char) { c == ' ' || 9 <= c as int <= 13 }

  function TrimStart(s: string): (t: string)
    ensures t == [] || !IsSpace(t[0])
  {
    if s != [] && IsSpace(s[0]) then TrimStart(s[1..]) else s
  }

  function TrimEnd(s: string): (t: string)
    ensures t == [] || !IsSpace(t[|t| - 1])
  {
    if s != [] && IsSpace(s[|s| - 1]) then TrimEnd(s[..|s| - 1]) else s
  }

  /** Digits in which a single `_` may stand between two digits, as Python's numeric literals allow. */
  predicate DigitGroups(u: string)
  {
    1 <= |u| && IsDigit(u[0]) &&
    (|u| == 1 || if u[1] == '_' then DigitGroups(u[2..]) else DigitGroups(u[1..]))
  }

  /** The digits of `u` with its separating underscores removed. */
  function DropUnderscores(u: string): (d: string)
    requires DigitGroups(u)
    ensures 1 <= |d| && AllDigits(d)
    ensures AllDigits(u) ==> d == u
  {
    if |u| == 1 then u
    else if u[1] == '_' then [u[0]] + DropUnderscores(u[2..])
    else [u[0]] + DropUnderscores(u[1..])
  }

  lemma {:induction false} DigitsAreGroups(u: string)
    requires 1 <= |u| && AllDigits(u)
    ensures DigitGroups(u)
  {
    if |u| > 1 {
      DigitsAreGroups(u[1..]);
    }
  }

  function ParseUnsigned(u: string): (r: Option<nat>)
  {
    if DigitGroups(u) then Some(DigitsValue(DropUnderscores(u)))
    else None
  }

  /**
   * Python's `int(s)` on a string in base 10: surrounding whitespace, an optional sign,
   * then digits grouped by single underscores. `None` stands for the `ValueError`.
   */
  function ParseInt(s: string): Option<int>
  {
    var t := TrimEnd(TrimStart(s));
    if t == [] then None
    else if t[0] == '-' || t[0] == '+' then
      match ParseUnsigned(t[1..])
      case None => None
      case Some(v) => var n: int := v; Some(if t[0] == '-' then -n else n)
    else
      match ParseUnsigned(t)
      case None => None
      case Some(v) => var n: int := v; Some(n)
  }

  /** `int()` reads a plain run of digits, leading zeros included, as its decimal value. */
  lemma ParseIntDigits(u: string)
    requires 1 <= |u| && AllDigits(u)
    ensures ParseUnsigned(u) == Some(DigitsValue(u))
    ensures ParseInt(u) == Some(DigitsValue(u))
  {
    DigitsAreGroups(u);
    assert TrimStart(u) == u;
    assert TrimEnd(TrimStart(u)) == u;
  }

  /** `int("%d" % i) == i`. */
  lemma ParseIntText(i: int)
    ensures ParseInt(IntText(i)) == Some(i)
  {
    var s := IntText(i);
    assert !IsSpace(s[0]) && !IsSpace(s[|s| - 1]);
    assert TrimStart(s) == s;
    assert TrimEnd(TrimStart(s)) == s;
    if i < 0 {
      assert s[0] == '-' && s[1..] == NatText(-i);
      ParseIntDigits(s[1..]);
      NatTextValue(-i);
      assert ParseUnsigned(s[1..]) == Some(-i);
    } else {
      assert s == NatText(i);
      ParseIntDigits(s);
      NatTextValue(i);
      assert ParseUnsigned(s) == Some(i);
    }
  }

  /** `sep.join(parts)`. */
  function Join(parts: seq<string>, sep: char): (s: string)
    requires |parts| >= 1
  {
    if |parts| == 1 then parts[0] else parts[0] + [sep] + Join(parts[1..], sep)
  }

  /** `s.split(sep)`: the pieces between separators; never empty, even for the empty string. */
  function Split(s: string, sep: char): (parts: seq<string>)
    ensures |parts| >= 1
    ensures forall i :: 0 <= i < |parts| ==> sep !in parts[i]
  {
    if s == [] then [[]]
    else
      var rest := Split(s[1..], sep);
      if s[0] == sep then
        [[]] + rest
      else
        var parts := [[s[0]] + rest[0]] + rest[1..];
        assert parts[1..] == rest[1..];
        parts
  }

  /** Joining undoes splitting: the pieces of `s.split(sep)`, rejoined, give back `s`. */
  lemma {:induction false} JoinSplit(s: string, sep: char)
    ensures Join(Split(s, sep), sep) == s
  {
    if s != [] {
      JoinSplit(s[1..], sep);
      var rest := Split(s[1..], sep);
      if s[0] != sep {
        var parts := Split(s, sep);
        assert parts[0] == [s[0]] + rest[0] && parts[1..] == rest[1..];
        if |rest| > 1 {
          assert Join(rest, sep) == rest[0] + [sep] + Join(rest[1..], sep);
        }
      }
    }
  }

  lemma {:induction false} SplitWithout(s: string, sep: char)
    requires sep !in s
    ensures Split(s, sep) == [s]
  {
    if s != [] {
      SplitWithout(s[1..], sep);
      assert [s[0]] + s[1..] == s;
    }
  }

  lemma {:induction false} SplitAfter(a: string, sep: char, b: string)
    requires sep !in a
    ensures Split(a + [sep] + b, sep) == [a] + Split(b, sep)
  {
    if a == [] {
      assert (a + [sep] + b)[1..] == b;
    } else {
      var s := a + [sep] + b;
      assert s[1..] == a[1..] + [sep] + b;
      SplitAfter(a[1..], sep, b);
      var rest := Split(s[1..], sep);
      assert rest == [a[1..]] + Split(b, sep);
      assert [a[0]] + rest[0] == a;
    }
  }

  /** Splitting undoes joining: `s.split(sep)` recovers the pieces `sep.join` was given. */
  lemma {:induction false} SplitJoin(parts: seq<string>, sep: char)
    requires |parts| >= 1
    requires forall i :: 0 <= i < |parts| ==> sep !in parts[i]
    ensures Split(Join(parts, sep), sep) == parts
  {
    if |parts| == 1 {
      SplitWithout(parts[0], sep);
    } else {
      SplitAfter(parts[0], sep, Join(parts[1..], sep));
      SplitJoin(parts[1..], sep);
    }
  }

  function Occurrences(s: string, c: char): nat
  {
    if s == [] then 0 else (if s[0] == c then 1 else 0) + Occurrences(s[1..], c)
  }

  /** `s.split(sep)` has one piece more than `s` has separators. */
  lemma {:induction false} SplitCount(s: string, sep: char)
    ensures |Split(s, sep)| == Occurrences(s, sep) + 1
  {
    if s != [] {
      SplitCount(s[1..], sep);
    }
  }
}
