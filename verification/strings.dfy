/**
 * The JavaScript string operations the action relies on: `split` and `join`,
 * `trim` and the `\s` class of regular expressions, `toLowerCase`, and the
 * decimal rendering of integers (`String(n)`) together with the array-index
 * reading of a property name.
 */
module Strings {

  /** `parts.join(sep)`. */
  function Join(parts: seq<string>, sep: string): string
  {
    if |parts| == 0 then ""
    else if |parts| == 1 then parts[0]
    else parts[0] + sep + Join(parts[1..], sep)
  }

  /** `s.split(c)` for a one-character separator: always at least one part. */
  function Split(s: string, c: char): (parts: seq<string>)
    ensures |parts| >= 1
    ensures forall p :: p in parts ==> c !in p
  {
    if |s| == 0 then [""]
    else
      var rest := Split(s[1..], c);
      assert s == [s[0]] + s[1..];
      if s[0] == c then [""] + rest
      else [[s[0]] + rest[0]] + rest[1..]
  }

  lemma JoinCons(x: string, parts: seq<string>, sep: string)
    requires |parts| >= 1
    ensures Join([x] + parts, sep) == x + sep + Join(parts, sep)
  {
    assert ([x] + parts)[1..] == parts;
  }

  lemma JoinGlue(c: char, x: string, parts: seq<string>, sep: string)
    requires |parts| >= 1
    ensures Join([[c] + parts[0]] + parts[1..], sep) == [c] + Join(parts, sep)
  {
    if |parts| > 1 {
      JoinCons([c] + parts[0], parts[1..], sep);
      JoinCons(parts[0], parts[1..], sep);
      assert [parts[0]] + parts[1..] == parts;
    }
  }

  /** Joining the parts of a split with the separator gives the string back. */
  lemma {:induction false} JoinOfSplit(s: string, c: char)
    ensures Join(Split(s, c), [c]) == s
  {
    if |s| > 0 {
      var rest := Split(s[1..], c);
      JoinOfSplit(s[1..], c);
      assert s == [s[0]] + s[1..];
      if s[0] == c {
        assert Split(s, c) == [""] + rest;
        JoinCons("", rest, [c]);
      } else {
        assert Split(s, c) == [[s[0]] + rest[0]] + rest[1..];
        JoinGlue(s[0], "", rest, [c]);
      }
    }
  }

  lemma {:induction false} SplitPrefix(a: string, t: string, c: char)
    requires c !in a
    ensures Split(a + t, c) == [a + Split(t, c)[0]] + Split(t, c)[1..]
  {
    if |a| > 0 {
      SplitPrefix(a[1..], t, c);
      assert (a + t)[1..] == a[1..] + t;
      assert [a[0]] + (a[1..] + Split(t, c)[0]) == a + Split(t, c)[0];
    } else {
      var st := Split(t, c);
      assert a + t == t && a + st[0] == st[0];
      assert [st[0]] + st[1..] == st;
    }
  }

  /** Splitting the join of separator-free parts gives the parts back. */
  lemma {:induction false} SplitOfJoin(parts: seq<string>, c: char)
    requires |parts| >= 1
    requires forall p :: p in parts ==> c !in p
    ensures Split(Join(parts, [c]), c) == parts
  {
    if |parts| == 1 {
      SplitPrefix(parts[0], "", c);
      assert parts[0] + "" == parts[0];
    } else {
      var tail := Join(parts[1..], [c]);
      SplitOfJoin(parts[1..], c);
      assert Join(parts, [c]) == parts[0] + ([c] + tail);
      SplitPrefix(parts[0], [c] + tail, c);
      var u := [c] + tail;
      assert u[0] == c && u[1..] == tail;
      assert Split(u, c) == [""] + Split(tail, c);
      var su := Split(u, c);
      assert su[0] == "" && su[1..] == parts[1..];
      assert parts[0] + su[0] == parts[0];
      assert parts == [parts[0]] + parts[1..];
    }
  }

  /**
   * The characters ECMAScript counts as white space or line terminators: the
   * class `\s` of regular expressions and what `String.prototype.trim` removes.
   */
  predicate IsWhiteSpace(ch: char)
  {
    ch == '\t' || ch == '\n' || ch == '\U{0B}' || ch == '\U{0C}' || ch == '\r' || ch == ' '
    || ch == '\U{A0}' || ch == '\U{1680}' || ('\U{2000}' <= ch <= '\U{200A}')
    || ch == '\U{2028}' || ch == '\U{2029}' || ch == '\U{202F}' || ch == '\U{205F}'
    || ch == '\U{3000}' || ch == '\U{FEFF}'
  }

  /** `s.trimStart()`: the longest white-space prefix is removed. */
  function TrimStart(s: string): (r: string)
    ensures |r| <= |s| && r == s[|s| - |r|..]
    ensures forall i :: 0 <= i < |s| - |r| ==> IsWhiteSpace(s[i])
    ensures r == "" || !IsWhiteSpace(r[0])
  {
    if |s| > 0 && IsWhiteSpace(s[0]) then TrimStart(s[1..]) else s
  }

  /** `s.trimEnd()`: the longest white-space suffix is removed. */
  function TrimEnd(s: string): (r: string)
    ensures |r| <= |s| && r == s[..|r|]
    ensures forall i :: |r| <= i < |s| ==> IsWhiteSpace(s[i])
    ensures r == "" || !IsWhiteSpace(r[|r| - 1])
  {
    if |s| > 0 && IsWhiteSpace(s[|s| - 1]) then TrimEnd(s[..|s| - 1]) else s
  }

  /** `s.trim()`. */
  function Trim(s: string): (r: string)
    ensures r == "" || (!IsWhiteSpace(r[0]) && !IsWhiteSpace(r[|r| - 1]))
    ensures forall ch :: ch in r ==> ch in s
  {
    TrimEnd(TrimStart(s))
  }

  /** `r` is the slice of `s` starting at `lo`, with only white space before and after it. */
  predicate WhiteSpaceAround(s: string, r: string, lo: int)
  {
    && 0 <= lo <= |s| - |r| && r == s[lo..lo + |r|]
    && (forall i :: 0 <= i < lo ==> IsWhiteSpace(s[i]))
    && (forall i :: lo + |r| <= i < |s| ==> IsWhiteSpace(s[i]))
  }

  /** `trim()` removes white space only, from both ends: what is left is one contiguous slice of the input. */
  lemma TrimSlice(s: string)
    ensures exists lo :: WhiteSpaceAround(s, Trim(s), lo)
    ensures Trim(s) == "" || (!IsWhiteSpace(Trim(s)[0]) && !IsWhiteSpace(Trim(s)[|Trim(s)| - 1]))
  {
    var start := TrimStart(s);
    var lo := |s| - |start|;
    assert WhiteSpaceAround(s, Trim(s), lo);
  }

  /** A string that `trim` leaves as it is. */
  predicate IsTrimmed(s: string)
  {
    s == "" || (!IsWhiteSpace(s[0]) && !IsWhiteSpace(s[|s| - 1]))
  }

  function LowerChar(ch: char): char
  {
    if 'A' <= ch <= 'Z' then (ch as int + 32) as char else ch
  }

  /** `s.toLowerCase()` on the ASCII letters. */
  function ToLower(s: string): (r: string)
    ensures |r| == |s|
    ensures forall i :: 0 <= i < |s| ==> r[i] == LowerChar(s[i])
    ensures forall i :: 0 <= i < |s| ==> !('A' <= r[i] <= 'Z')
  {
    seq(|s|, i requires 0 <= i < |s| => LowerChar(s[i]))
  }

  function DigitChar(d: nat): char
    requires d < 10
  {
    ('0' as int + d) as char
  }

  predicate IsDigit(ch: char)
  {
    '0' <= ch <= '9'
  }

  function DigitValue(ch: char): nat
    requires IsDigit(ch)
  {
    ch as int - '0' as int
  }

  /** `String(n)` for a natural number: its decimal digits, without leading zeros. */
  function NatToString(n: nat): (r: string)
    ensures |r| >= 1 && forall i :: 0 <= i < |r| ==> IsDigit(r[i])
    ensures n >= 10 <==> |r| >= 2
  {
    if n < 10 then [DigitChar(n)] else NatToString(n / 10) + [DigitChar(n % 10)]
  }

  /** `String(i)` for an integer. */
  function IntToString(i: int): string
  {
    if i < 0 then "-" + NatToString(-i) else NatToString(i)
  }

  /**
   * A property name that denotes an array index: a non-empty run of decimal
   * digits with no leading zero (the canonical form that `String` produces).
   */
  predicate IsIndexKey(k: string)
  {
    |k| >= 1 && (forall i :: 0 <= i < |k| ==> IsDigit(k[i])) && (|k| == 1 || k[0] != '0')
  }

  /** The number a string of decimal digits denotes. */
  function ParseDecimal(k: string): nat
    requires forall i :: 0 <= i < |k| ==> IsDigit(k[i])
  {
    if |k| == 0 then 0 else ParseDecimal(k[..|k| - 1]) * 10 + DigitValue(k[|k| - 1])
  }

  /** Reading back the decimal rendering of a number gives the number, and the rendering is canonical. */
  lemma {:induction false} ParseNatToString(n: nat)
    ensures IsIndexKey(NatToString(n))
    ensures ParseDecimal(NatToString(n)) == n
  {
    if n >= 10 {
      ParseNatToString(n / 10);
      var p := NatToString(n / 10);
      assert (p + [DigitChar(n % 10)])[..|p|] == p;
    }
  }

  lemma {:induction false} ParseDecimalPositive(k: string)
    requires IsIndexKey(k) && k[0] != '0'
    ensures ParseDecimal(k) >= 1
  {
    if |k| > 1 {
      var p := k[..|k| - 1];
      assert p[0] == k[0];
      ParseDecimalPositive(p);
    }
  }

  /** Rendering the number an index key denotes gives the key back. */
  lemma {:induction false} NatToStringOfParse(k: string)
    requires IsIndexKey(k)
    ensures NatToString(ParseDecimal(k)) == k
  {
    if |k| > 1 {
      var p := k[..|k| - 1];
      assert p[0] == k[0];
      NatToStringOfParse(p);
      ParseDecimalPositive(p);
      var last := k[|k| - 1];
      var v := ParseDecimal(k);
      assert v == ParseDecimal(p) * 10 + DigitValue(last);
      LastDigit(ParseDecimal(p), DigitValue(last));
      assert DigitChar(DigitValue(last)) == last;
      assert k == p + [last];
    }
  }

  /** Appending a digit to a number: dividing by ten and the remainder take it apart again. */
  lemma LastDigit(q: nat, d: nat)
    requires d < 10
    ensures (q * 10 + d) / 10 == q && (q * 10 + d) % 10 == d
  {
  }

  /** Distinct numbers have distinct renderings. */
  lemma NatToStringInjective(i: nat, j: nat)
    requires NatToString(i) == NatToString(j)
    ensures i == j
  {
    ParseNatToString(i);
    ParseNatToString(j);
  }
}
