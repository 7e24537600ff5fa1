/**
 * The text conversions the roster code relies on: decimal formatting of a
 * day number (`f"{day + 1}"`), Python's `int(token)` on a string, and
 * `str.split(',')`.
 */
module Numerals {
  import opened Sequences

  predicate IsDigit(c: char) { '0' <= c <= '9' }

  /** The whitespace `int()` strips around a numeral (ASCII part). */
  predicate IsSpace(c: char)
  {
    c == ' ' || c == '\t' || c == '\n' || c == '\r' || c == '\U{000B}' || c == '\U{000C}'
  }

  function DigitValue(c: char): (v: nat)
    requires IsDigit(c)
    ensures v < 10
  {
    (c as int) - ('0' as int)
  }

  function DigitChar(d: nat): (c: char)
    requires d < 10
    ensures IsDigit(c) && DigitValue(c) == d
  {
    ('0' as int + d) as char
  }

  /** Decimal numeral of `n`, without sign or leading zeros. */
  function NatToString(n: nat): (s: string)
    ensures |s| >= 1
    ensures forall i :: 0 <= i < |s| ==> IsDigit(s[i])
  {
    if n < 10 then [DigitChar(n)] else NatToString(n / 10) + [DigitChar(n % 10)]
  }

  /** Digits, possibly grouped by single underscores, as `int()` accepts them. */
  predicate IsDigitGroups(s: string)
  {
    && |s| > 0
    && IsDigit(s[0])
    && IsDigit(s[|s| - 1])
    && (forall i :: 0 <= i < |s| ==> IsDigit(s[i]) || s[i] == '_')
    && (forall i :: 0 < i < |s| && s[i] == '_' ==> s[i - 1] != '_')
  }

  /** Value of a digit string, underscores ignored. */
  function DigitsValue(s: string): nat
    requires forall i :: 0 <= i < |s| ==> IsDigit(s[i]) || s[i] == '_'
  {
    if s == [] then 0
    else if s[|s| - 1] == '_' then DigitsValue(s[..|s| - 1])
    else DigitsValue(s[..|s| - 1]) * 10 + DigitValue(s[|s| - 1])
  }

  function TrimLeft(s: string): (r: string)
    ensures |r| <= |s| && r == s[|s| - |r|..]
    ensures r == [] || !IsSpace(r[0])
  {
    if |s| > 0 && IsSpace(s[0]) then TrimLeft(s[1..]) else s
  }

  function TrimRight(s: string): (r: string)
    ensures |r| <= |s| && r == s[..|r|]
    ensures r == [] || !IsSpace(r[|r| - 1])
  {
    if |s| > 0 && IsSpace(s[|s| - 1]) then TrimRight(s[..|s| - 1]) else s
  }

  /**
   * Python's `int(s)` for a base-10 string: optional surrounding
   * whitespace, an optional sign, then digit groups. `None` stands for the
   * ValueError it raises on anything else.
   */
  function ParseInt(s: string): (r: Option<int>)
  {
    ParseTrimmed(TrimRight(TrimLeft(s)))
  }

  /** `int()` on a string without surrounding whitespace. */
  function ParseTrimmed(t: string): (r: Option<int>)
  {
    if |t| > 0 && (t[0] == '+' || t[0] == '-') then
      var body := t[1..];
      if IsDigitGroups(body) then
        var v: int := DigitsValue(body);
        Some(if t[0] == '-' then -v else v)
      else None
    else if IsDigitGroups(t) then Some(DigitsValue(t))
    else None
  }

  predicate AllSpace(s: string)
  {
    forall i :: 0 <= i < |s| ==> IsSpace(s[i])
  }

  lemma {:induction false} NatToStringValue(n: nat)
    ensures DigitsValue(NatToString(n)) == n
  {
    if n >= 10 {
      NatToStringValue(n / 10);
      var s := NatToString(n);
      assert s[..|s| - 1] == NatToString(n / 10);
    }
  }

  lemma {:induction false} TrimLeftSpaces(a: string, x: string)
    requires AllSpace(a)
    requires x == [] || !IsSpace(x[0])
    ensures TrimLeft(a + x) == x
  {
    if a != [] {
      assert (a + x)[1..] == a[1..] + x;
      TrimLeftSpaces(a[1..], x);
    } else {
      assert a + x == x;
    }
  }

  lemma {:induction false} TrimRightSpaces(x: string, b: string)
    requires AllSpace(b)
    requires x == [] || !IsSpace(x[|x| - 1])
    ensures TrimRight(x + b) == x
  {
    if b != [] {
      var b' := b[..|b| - 1];
      assert (x + b)[..|x + b| - 1] == x + b';
      TrimRightSpaces(x, b');
    } else {
      assert x + b == x;
    }
  }

  /**
   * `int()` reads back every decimal numeral, whatever whitespace surrounds
   * it: the tokens of `"3, 17"` are `"3"` and `" 17"`.
   */
  lemma ParseIntNumeral(a: string, n: nat, b: string)
    requires AllSpace(a) && AllSpace(b)
    ensures ParseInt(a + NatToString(n) + b) == Some(n)
  {
    var x := NatToString(n);
    assert TrimRight(TrimLeft(a + x + b)) == x by {
      assert !IsSpace(x[0]) && !IsSpace(x[|x| - 1]);
      assert (x + b)[0] == x[0];
      assert a + x + b == a + (x + b);
      TrimLeftSpaces(a, x + b);
      TrimRightSpaces(x, b);
    }
    NumeralTrimmed(n);
  }

  /** A numeral without surrounding whitespace reads back as its value. */
  lemma NumeralTrimmed(n: nat)
    ensures ParseTrimmed(NatToString(n)) == Some(n)
  {
    NumeralIsDigitGroups(n);
    NatToStringValue(n);
  }

  /** `int()` reads a decimal numeral back as its value. */
  lemma ParseNumeral(n: nat)
    ensures ParseInt(NatToString(n)) == Some(n)
  {
    var x := NatToString(n);
    assert !IsSpace(x[0]) && !IsSpace(x[|x| - 1]);
    assert TrimRight(TrimLeft(x)) == x;
    NumeralTrimmed(n);
  }

  lemma NumeralIsDigitGroups(n: nat)
    ensures IsDigitGroups(NatToString(n))
    ensures NatToString(n)[0] != '+' && NatToString(n)[0] != '-'
  {
  }

  /** `int()` rejects a token holding nothing but whitespace, the empty token included. */
  lemma ParseIntBlank(s: string)
    requires AllSpace(s)
    ensures ParseInt(s) == None
  {
    TrimLeftSpaces(s, []);
    assert s + [] == s;
  }

  /** Index of the first `c` in `s`. */
  function IndexOf(s: string, c: char): (i: nat)
    requires c in s
    ensures i < |s| && s[i] == c && c !in s[..i]
  {
    if s[0] == c then 0
    else
      assert c in s[1..];
      var j := IndexOf(s[1..], c);
      assert s[..j + 1] == [s[0]] + s[1..][..j];
      j + 1
  }

  /** The first occurrence is the one with no occurrence before it. */
  lemma IndexOfAt(s: string, c: char, i: nat)
    requires i < |s| && s[i] == c && c !in s[..i]
    ensures IndexOf(s, c) == i
  {
  }

  /** Python's `s.split(sep)`: the pieces between separators, `[""]` for `""`. */
  function Split(s: string, sep: char): (parts: seq<string>)
    ensures |parts| >= 1
    ensures forall i :: 0 <= i < |parts| ==> sep !in parts[i]
    decreases |s|
  {
    if sep in s then
      var i := IndexOf(s, sep);
      [s[..i]] + Split(s[i + 1..], sep)
    else [s]
  }

  /** `sep.join(parts)`. */
  function Join(parts: seq<string>, sep: char): string
    requires |parts| >= 1
  {
    if |parts| == 1 then parts[0] else parts[0] + [sep] + Join(parts[1..], sep)
  }

  lemma {:induction false} SplitJoin(s: string, sep: char)
    ensures Join(Split(s, sep), sep) == s
    decreases |s|
  {
    if sep in s {
      var i := IndexOf(s, sep);
      SplitJoin(s[i + 1..], sep);
      assert Split(s, sep)[1..] == Split(s[i + 1..], sep);
      assert s == s[..i] + [sep] + s[i + 1..];
    }
  }

  lemma {:induction false} JoinSplit(parts: seq<string>, sep: char)
    requires |parts| >= 1
    requires forall i :: 0 <= i < |parts| ==> sep !in parts[i]
    ensures Split(Join(parts, sep), sep) == parts
  {
    if |parts| > 1 {
      var head, tail := parts[0], parts[1..];
      var rest := Join(tail, sep);
      var s := head + [sep] + rest;
      assert Join(parts, sep) == s;
      assert IndexOf(s, sep) == |head| by {
        assert s[..|head|] == head;
        IndexOfAt(s, sep, |head|);
      }
      assert s[|head| + 1..] == rest;
      assert Split(s, sep) == [head] + Split(rest, sep);
      JoinSplit(tail, sep);
      assert parts == [head] + tail;
    }
  }
}
