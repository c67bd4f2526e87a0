/** The few pieces of Python's `str` that the pipeline relies on: prefix
    slicing, `strip()`, `lower()`, `str(int)`, `', '.join(...)`, and
    concatenation of a list of strings. */
module Text {

  function Min(a: int, b: int): int { if a <= b then a else b }

  /** `s[:n]`: the first `n` characters, or all of `s` when it is shorter. */
  function Take(s: string, n: nat): (r: string)
    ensures |r| == Min(|s|, n)
    ensures r == s[..|r|]
  {
    if |s| <= n then s else s[..n]
  }

  /** Python's `str.isspace()`: the characters `strip()` removes by default. */
  predicate IsSpace(c: char)
  {
    || ('\t' <= c <= '\r')
    || ('\U{1C}' <= c <= '\U{1F}')
    || c == ' ' || c == '\U{85}' || c == '\U{A0}' || c == '\U{1680}'
    || ('\U{2000}' <= c <= '\U{200A}')
    || c == '\U{2028}' || c == '\U{2029}' || c == '\U{202F}' || c == '\U{205F}'
    || c == '\U{3000}'
  }

  /** Number of whitespace characters at the front of `s`. */
  function LeadingSpaces(s: string): (n: nat)
    ensures n <= |s|
    ensures forall i :: 0 <= i < n ==> IsSpace(s[i])
    ensures n < |s| ==> !IsSpace(s[n])
  {
    if |s| > 0 && IsSpace(s[0]) then 1 + LeadingSpaces(s[1..]) else 0
  }

  /** Length of `s` once its trailing whitespace is cut off. */
  function TrimmedEnd(s: string): (n: nat)
    ensures n <= |s|
    ensures forall i :: n <= i < |s| ==> IsSpace(s[i])
    ensures n > 0 ==> !IsSpace(s[n - 1])
  {
    if |s| > 0 && IsSpace(s[|s| - 1]) then TrimmedEnd(s[..|s| - 1]) else |s|
  }

  /** `s.strip()`: `s` without its leading and trailing whitespace. */
  function Strip(s: string): string
  {
    var rest := s[LeadingSpaces(s)..];
    rest[..TrimmedEnd(rest)]
  }

  /** What `Strip` promises: the result is a slice of `s`, everything cut
      away on either side is whitespace, and the result neither starts nor
      ends with whitespace; it is empty exactly when `s` is all whitespace. */
  lemma StripSpec(s: string)
    ensures var r, i := Strip(s), LeadingSpaces(s);
      && i + |r| <= |s|
      && r == s[i..i + |r|]
      && (forall k :: 0 <= k < i ==> IsSpace(s[k]))
      && (forall k :: i + |r| <= k < |s| ==> IsSpace(s[k]))
      && (r != [] ==> !IsSpace(r[0]) && !IsSpace(r[|r| - 1]))
      && (r == [] <==> forall k :: 0 <= k < |s| ==> IsSpace(s[k]))
  {
  }

  /** `Strip` leaves a string alone that already starts and ends with a
      non-whitespace character. */
  lemma StripUnchanged(s: string)
    requires s != [] && !IsSpace(s[0]) && !IsSpace(s[|s| - 1])
    ensures Strip(s) == s
  {
  }

  /** A concatenation that starts and ends with a non-whitespace character
      is left alone by `Strip`. */
  lemma StripJoined(x: string, y: string)
    requires x != [] && !IsSpace(x[0])
    requires y != [] && !IsSpace(y[|y| - 1])
    ensures Strip(x + y) == x + y
  {
    var xy := x + y;
    assert xy[0] == x[0] && xy[|xy| - 1] == y[|y| - 1];
    StripUnchanged(xy);
  }

  /** If `s` starts with `p`, `p` starts with a non-whitespace character and
      some non-whitespace character follows `p` in `s`, then `Strip(s)`
      still starts with `p`. */
  lemma StripKeepsPrefix(p: string, s: string, k: nat)
    requires p != [] && p <= s && !IsSpace(p[0])
    requires |p| <= k < |s| && !IsSpace(s[k])
    ensures p <= Strip(s)
  {
  }

  /** Where each piece of a seven-piece concatenation sits in the result. */
  lemma FieldsOfConcat(p0: string, f1: string, p1: string, f2: string, p2: string, f3: string, p3: string)
    ensures var t, i := p0 + f1 + p1 + f2 + p2 + f3 + p3, |p0|;
      var j := i + |f1| + |p1|;
      var k := j + |f2| + |p2|;
      && |t| == k + |f3| + |p3|
      && t[..i] == p0
      && t[i..i + |f1|] == f1
      && t[j..j + |f2|] == f2
      && t[k..k + |f3|] == f3
      && t[k + |f3|..] == p3
  {
  }

  /** How many times `c` occurs in `s`. */
  function Count(s: string, c: char): (n: nat)
    ensures n <= |s|
    ensures n == 0 <==> c !in s
  {
    if s == [] then 0 else (if s[0] == c then 1 else 0) + Count(s[1..], c)
  }

  lemma {:induction false} CountAppend(s: string, t: string, c: char)
    ensures Count(s + t, c) == Count(s, c) + Count(t, c)
  {
    if s == [] {
      assert s + t == t;
    } else {
      assert (s + t)[1..] == s[1..] + t;
      CountAppend(s[1..], t, c);
    }
  }

  /** Ending a text with a line break adds one line break. */
  lemma CountLineBreak(l: string)
    ensures Count(l + "\n", '\n') == Count(l, '\n') + 1
  {
    CountAppend(l, "\n", '\n');
  }

  /** A prefix without `c` adds no occurrence of `c`. */
  lemma CountAfterPrefix(p: string, x: string, c: char)
    requires c !in p
    ensures Count(p + x, c) == Count(x, c)
  {
    CountAppend(p, x, c);
  }

  /** Three texts, each ended by a line break. */
  lemma CountThreeLines(x: string, y: string, z: string)
    ensures Count(x + "\n" + (y + "\n") + (z + "\n"), '\n') == Count(x, '\n') + Count(y, '\n') + Count(z, '\n') + 3
  {
    CountLineBreak(x);
    CountLineBreak(y);
    CountLineBreak(z);
    CountAppend(x + "\n", y + "\n", '\n');
    CountAppend(x + "\n" + (y + "\n"), z + "\n", '\n');
  }

  /** A text, a second one ended by a line break, and one more line break. */
  lemma CountTwoLines(x: string, y: string)
    ensures Count(x + (y + "\n") + "\n", '\n') == Count(x, '\n') + Count(y, '\n') + 2
  {
    CountLineBreak(y);
    CountAppend(x, y + "\n", '\n');
    CountLineBreak(x + (y + "\n"));
  }

  /** A text without a line break, ended by one, is one line. */
  lemma CountLine(l: string)
    requires '\n' !in l
    ensures Count(l + "\n", '\n') == 1
  {
    CountAppend(l, "\n", '\n');
  }

  /** `c.lower()` for one character. Only ASCII letters change. */
  function LowerChar(c: char): char
  {
    if 'A' <= c <= 'Z' then (c as int + 32) as char else c
  }

  /** `s.lower()`, restricted to ASCII letters: the result has no upper-case
      ASCII letter left, each upper-case letter becomes its lower-case
      partner 32 code points up, and every other character stays. */
  function ToLower(s: string): (r: string)
    ensures |r| == |s|
    ensures forall i :: 0 <= i < |s| ==> !('A' <= r[i] <= 'Z')
    ensures forall i :: 0 <= i < |s| ==>
      if 'A' <= s[i] <= 'Z' then r[i] as int == s[i] as int + 32 else r[i] == s[i]
  {
    seq(|s|, i requires 0 <= i < |s| => LowerChar(s[i]))
  }

  /** A name lower-cases to an all-lower-case key exactly when it is that
      key with any of its letters written upper-case. */
  lemma ToLowerMatches(name: string, key: string)
    requires forall i :: 0 <= i < |key| ==> 'a' <= key[i] <= 'z'
    ensures ToLower(name) == key <==>
      |name| == |key| && forall i :: 0 <= i < |key| ==> name[i] == key[i] || name[i] as int + 32 == key[i] as int
  {
  }

  /** The decimal digit for `d`. */
  function DigitChar(d: nat): char
    requires d < 10
  {
    ('0' as int + d) as char
  }

  predicate IsDigit(c: char) { '0' <= c <= '9' }

  /** `str(n)` for a natural number: its decimal digits, most significant first. */
  function NatToString(n: nat): (r: string)
    ensures r != []
    ensures forall i :: 0 <= i < |r| ==> IsDigit(r[i])
    ensures n < 10 <==> |r| == 1
    ensures n >= 10 ==> r[0] != '0'
  {
    if n < 10 then [DigitChar(n)] else NatToString(n / 10) + [DigitChar(n % 10)]
  }

  /** The number a string of decimal digits denotes (the inverse of `NatToString`). */
  function DigitsValue(s: string): nat
    requires forall i :: 0 <= i < |s| ==> IsDigit(s[i])
  {
    if s == [] then 0
    else
      assert IsDigit(s[|s| - 1]);
      10 * DigitsValue(s[..|s| - 1]) + (s[|s| - 1] as int - '0' as int)
  }

  /** Reading back the digits `NatToString` writes gives the number again,
      so distinct counts are rendered differently. */
  lemma {:induction false} NatToStringRoundTrip(n: nat)
    ensures DigitsValue(NatToString(n)) == n
  {
    if n >= 10 {
      var r := NatToString(n);
      assert r[..|r| - 1] == NatToString(n / 10);
      NatToStringRoundTrip(n / 10);
    }
  }

  /** `str(i)` for any integer: a minus sign before the digits when negative. */
  function IntToString(i: int): (r: string)
    ensures r != []
    ensures i < 0 <==> r[0] == '-'
    ensures '\n' !in r
  {
    if i < 0 then "-" + NatToString(-i) else NatToString(i)
  }

  /** The digits after the sign of `IntToString(i)` read back as |i|, so
      the rendering shows the value itself. */
  lemma IntToStringValue(i: int)
    ensures var r := IntToString(i);
      var d := if i < 0 then r[1..] else r;
      && (forall k :: 0 <= k < |d| ==> IsDigit(d[k]))
      && DigitsValue(d) == (if i < 0 then -i else i)
  {
    var r := IntToString(i);
    if i < 0 {
      var n := NatToString(-i);
      assert r == "-" + n;
      assert r[1..] == n;
      NatToStringRoundTrip(-i);
    } else {
      NatToStringRoundTrip(i);
    }
  }

  /** `sep.join(items)`. */
  function Join(items: seq<string>, sep: string): string
  {
    if |items| == 0 then ""
    else if |items| == 1 then items[0]
    else items[0] + sep + Join(items[1..], sep)
  }

  /** The summed length of `items`. */
  function TotalLength(items: seq<string>): nat
  {
    if items == [] then 0 else |items[0]| + TotalLength(items[1..])
  }

  /** `Join` puts one separator between each two neighbouring items and
      nothing else around them. */
  lemma {:induction false} JoinLength(items: seq<string>, sep: string)
    requires items != []
    ensures |Join(items, sep)| == TotalLength(items) + (|items| - 1) * |sep|
  {
    if |items| == 1 {
      assert items[1..] == [];
    } else {
      JoinLength(items[1..], sep);
      assert (|items| - 1) * |sep| == |sep| + (|items| - 2) * |sep|;
    }
  }

  /** `Join` seen from the back: a one-item list joins to its item, and one
      item more adds the separator and that item at the end. With the
      definition, which builds the text from the front, this fixes the
      content and order of the result. */
  lemma {:induction false} JoinSnoc(items: seq<string>, x: string, sep: string)
    ensures Join([x], sep) == x
    ensures items != [] ==> Join(items + [x], sep) == Join(items, sep) + sep + x
  {
    if |items| > 1 {
      assert (items + [x])[1..] == items[1..] + [x];
      JoinSnoc(items[1..], x, sep);
    } else if |items| == 1 {
      assert items + [x] == [items[0], x];
    }
  }

  /** `Join` adds no character that is neither in an item nor in the separator. */
  lemma {:induction false} JoinAvoids(items: seq<string>, sep: string, c: char)
    requires c !in sep
    requires forall i :: 0 <= i < |items| ==> c !in items[i]
    ensures c !in Join(items, sep)
  {
    if |items| > 1 {
      JoinAvoids(items[1..], sep, c);
    }
  }

  /** `''.join(parts)`: the strings of `parts` one after the other. */
  function Concat(parts: seq<string>): (r: string)
  {
    if parts == [] then "" else parts[0] + Concat(parts[1..])
  }
}
