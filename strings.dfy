/** Text primitives shared by the model: Python's str.strip, str.lower,
    str.split, str.join, str.startswith, the `in` substring test and the
    decimal rendering that f-strings give an int. */
module Strings {

  datatype Option<+T> = None | Some(value: T)

  /** The characters for which Python's str.isspace() holds (and which
      `\s` matches in a str pattern). */
  predicate IsSpace(c: char) {
    c == ' ' || c == '\t' || c == '\n' || c == '\r'
    || c == '\U{000B}' || c == '\U{000C}'
    || ('\U{001C}' <= c <= '\U{001F}')
    || c == '\U{0085}' || c == '\U{00A0}' || c == '\U{1680}'
    || ('\U{2000}' <= c <= '\U{200A}')
    || c == '\U{2028}' || c == '\U{2029}' || c == '\U{202F}'
    || c == '\U{205F}' || c == '\U{3000}'
  }

  /** A string with no whitespace at either end. */
  predicate IsStripped(s: string) {
    |s| == 0 || (!IsSpace(s[0]) && !IsSpace(s[|s| - 1]))
  }

  /** `s` without its leading whitespace. */
  function TrimLeft(s: string): (r: string)
    ensures |r| <= |s|
    ensures |r| == 0 || !IsSpace(r[0])
  {
    if |s| > 0 && IsSpace(s[0]) then TrimLeft(s[1..]) else s
  }

  /** `s` without its trailing whitespace. */
  function TrimRight(s: string): (r: string)
    ensures |r| <= |s|
    ensures |r| == 0 || !IsSpace(r[|r| - 1])
  {
    if |s| > 0 && IsSpace(s[|s| - 1]) then TrimRight(s[..|s| - 1]) else s
  }

  /** TrimLeft keeps a suffix and drops only whitespace. */
  lemma {:induction false} TrimLeftDropsSpace(s: string)
    ensures TrimLeft(s) == s[|s| - |TrimLeft(s)|..]
    ensures forall i :: 0 <= i < |s| - |TrimLeft(s)| ==> IsSpace(s[i])
  {
    if |s| > 0 && IsSpace(s[0]) {
      TrimLeftDropsSpace(s[1..]);
    }
  }

  /** TrimRight keeps a prefix and drops only whitespace. */
  lemma {:induction false} TrimRightDropsSpace(s: string)
    ensures TrimRight(s) == s[..|TrimRight(s)|]
    ensures forall i :: |TrimRight(s)| <= i < |s| ==> IsSpace(s[i])
  {
    if |s| > 0 && IsSpace(s[|s| - 1]) {
      TrimRightDropsSpace(s[..|s| - 1]);
    }
  }

  /** Python's str.strip(): the longest middle part of `s` that neither
      starts nor ends with whitespace. */
  function Strip(s: string): (r: string)
    ensures IsStripped(r)
  {
    var l := TrimLeft(s);
    TrimRightDropsSpace(l);
    TrimRight(l)
  }

  /** All that Strip cuts off is whitespace: the result is a piece of `s`,
      and it is empty exactly when `s` is all whitespace. */
  lemma StripCutsSpace(s: string)
    ensures exists a :: 0 <= a <= |s| - |Strip(s)| && StartsWith(s[a..], Strip(s))
    ensures (forall i :: 0 <= i < |s| ==> IsSpace(s[i])) <==> Strip(s) == ""
  {
    var l := TrimLeft(s);
    var r := TrimRight(l);
    TrimLeftDropsSpace(s);
    TrimRightDropsSpace(l);
    var a := |s| - |l|;
    assert 0 <= a <= |s| - |r| && StartsWith(s[a..], r);
    if r == "" {
      assert l == "";
    }
  }

  lemma StripOfStripped(s: string)
    requires IsStripped(s)
    ensures Strip(s) == s
  {
  }

  lemma StripIdempotent(s: string)
    ensures Strip(Strip(s)) == Strip(s)
  {
    StripOfStripped(Strip(s));
  }

  /** Leading whitespace in front of a non-empty stripped word is all that
      Strip removes. */
  lemma {:induction false} StripLeadingSpace(pad: string, t: string)
    requires forall i :: 0 <= i < |pad| ==> IsSpace(pad[i])
    requires t != [] && IsStripped(t)
    ensures Strip(pad + t) == t
  {
    if pad == [] {
      assert pad + t == t;
    } else {
      assert (pad + t)[1..] == pad[1..] + t;
      StripLeadingSpace(pad[1..], t);
      assert TrimLeft(pad + t) == TrimLeft(pad[1..] + t);
    }
  }

  /** Trailing whitespace behind a word that does not end in whitespace is
      all that TrimRight removes. */
  lemma {:induction false} TrimRightPad(t: string, pad: string)
    requires forall i :: 0 <= i < |pad| ==> IsSpace(pad[i])
    requires t != [] && !IsSpace(t[|t| - 1])
    ensures TrimRight(t + pad) == t
  {
    if pad == [] {
      assert t + pad == t;
    } else {
      var shorter := pad[..|pad| - 1];
      assert (t + pad)[..|t + pad| - 1] == t + shorter;
      TrimRightPad(t, shorter);
    }
  }

  /** Leading whitespace in front of a word that does not start with
      whitespace is all that TrimLeft removes. */
  lemma {:induction false} TrimLeftPad(pad: string, t: string)
    requires forall i :: 0 <= i < |pad| ==> IsSpace(pad[i])
    requires t != [] && !IsSpace(t[0])
    ensures TrimLeft(pad + t) == t
  {
    if pad == [] {
      assert pad + t == t;
    } else {
      assert (pad + t)[1..] == pad[1..] + t;
      TrimLeftPad(pad[1..], t);
    }
  }

  /** Whitespace on both sides of a non-empty stripped word is all that
      Strip removes. */
  lemma StripPadded(pad: string, t: string, pad2: string)
    requires forall i :: 0 <= i < |pad| ==> IsSpace(pad[i])
    requires forall i :: 0 <= i < |pad2| ==> IsSpace(pad2[i])
    requires t != [] && IsStripped(t)
    ensures Strip(pad + t + pad2) == t
  {
    assert pad + t + pad2 == pad + (t + pad2);
    TrimLeftPad(pad, t + pad2);
    TrimRightPad(t, pad2);
  }

  /** ASCII lower-casing of one character. */
  function LowerChar(c: char): char {
    if 'A' <= c <= 'Z' then (c as int - 'A' as int + 'a' as int) as char else c
  }

  predicate IsLowerChar(c: char) {
    !('A' <= c <= 'Z')
  }

  /** Python's str.lower() on the ASCII letters. */
  function Lower(s: string): (r: string)
    ensures |r| == |s|
    ensures forall i :: 0 <= i < |s| ==> r[i] == LowerChar(s[i]) && IsLowerChar(r[i])
  {
    seq(|s|, i requires 0 <= i < |s| => LowerChar(s[i]))
  }

  lemma LowerIdempotent(s: string)
    ensures Lower(Lower(s)) == Lower(s)
  {
  }

  predicate StartsWith(s: string, prefix: string) {
    |prefix| <= |s| && s[..|prefix|] == prefix
  }

  /** Python's `sub in s`. */
  function Contains(s: string, sub: string): (r: bool)
    ensures r <==> exists i :: 0 <= i <= |s| - |sub| && StartsWith(s[i..], sub)
  {
    if StartsWith(s, sub) then
      assert StartsWith(s[0..], sub);
      true
    else if |s| == 0 then
      false
    else
      var r := Contains(s[1..], sub);
      assert forall i :: 1 <= i <= |s| - |sub| ==> s[i..] == s[1..][i - 1..];
      if r then
        var j :| 0 <= j <= |s| - 1 - |sub| && StartsWith(s[1..][j..], sub);
        assert s[j + 1..] == s[1..][j..];
        true
      else
        false
  }

  /** Python's str.split(sep) with a one-character separator: the pieces
      between separators, so k separators give k + 1 pieces. */
  function Split(s: string, sep: char): (r: seq<string>)
    ensures |r| >= 1
  {
    if |s| == 0 then [""]
    else
      var rest := Split(s[1..], sep);
      if s[0] == sep then [""] + rest else [[s[0]] + rest[0]] + rest[1..]
  }

  lemma {:induction false} SplitNoSeparator(s: string, sep: char)
    requires sep !in s
    ensures Split(s, sep) == [s]
  {
    if |s| > 0 {
      SplitNoSeparator(s[1..], sep);
      assert [s[0]] + s[1..] == s;
    }
  }

  /** Splitting stops at the first separator and resumes after it. */
  lemma {:induction false} SplitAtSeparator(a: string, sep: char, b: string)
    requires sep !in a
    ensures Split(a + [sep] + b, sep) == [a] + Split(b, sep)
  {
    if |a| == 0 {
      assert a + [sep] + b == [sep] + b;
      assert ([sep] + b)[1..] == b;
    } else {
      assert (a + [sep] + b)[1..] == a[1..] + [sep] + b;
      SplitAtSeparator(a[1..], sep, b);
      assert [a[0]] + a[1..] == a;
    }
  }

  /** Python's sep.join(parts). */
  function Join(parts: seq<string>, sep: string): (r: string)
    ensures |parts| == 1 ==> r == parts[0]
    ensures |parts| == 0 ==> r == ""
  {
    if |parts| == 0 then ""
    else if |parts| == 1 then parts[0]
    else parts[0] + sep + Join(parts[1..], sep)
  }

  predicate IsDigit(c: char) {
    '0' <= c <= '9'
  }

  function DigitChar(d: nat): (c: char)
    requires d < 10
    ensures IsDigit(c) && c as int - '0' as int == d
  {
    ('0' as int + d) as char
  }

  /** The decimal digits of a natural number, as f"{n}" prints it. */
  function NatToString(n: nat): (r: string)
    ensures |r| >= 1
    ensures forall i :: 0 <= i < |r| ==> IsDigit(r[i])
  {
    if n < 10 then [DigitChar(n)] else NatToString(n / 10) + [DigitChar(n % 10)]
  }

  /** f"{i}" for a Python int. */
  function IntToString(i: int): (r: string)
    ensures |r| >= 1
    ensures i >= 0 ==> r == NatToString(i)
    ensures i < 0 ==> r == "-" + NatToString(-i)
  {
    if i < 0 then "-" + NatToString(-i) else NatToString(i)
  }

  /** The number a string of decimal digits denotes. */
  function DecimalValue(s: string): nat
    requires forall i :: 0 <= i < |s| ==> IsDigit(s[i])
  {
    if |s| == 0 then 0
    else
      assert IsDigit(s[|s| - 1]);
      DecimalValue(s[..|s| - 1]) * 10 + (s[|s| - 1] as int - '0' as int)
  }

  /** Reading back the digits NatToString writes gives the number. */
  lemma {:induction false} NatToStringRoundTrip(n: nat)
    ensures DecimalValue(NatToString(n)) == n
  {
    if n >= 10 {
      NatToStringRoundTrip(n / 10);
      var s := NatToString(n);
      assert s[..|s| - 1] == NatToString(n / 10);
    }
  }

  /** Different numbers are rendered differently. */
  lemma NatToStringInjective(m: nat, n: nat)
    requires NatToString(m) == NatToString(n)
    ensures m == n
  {
    NatToStringRoundTrip(m);
    NatToStringRoundTrip(n);
  }
}
