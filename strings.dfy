/**
  The parts of Go's `strings` and `fmt` packages the configuration parser relies on:
  `strings.TrimSpace` (blank-value detection), `strings.Join` (error report rendering)
  and the `%d` verb (error count). `Split` and `DecimalValue` are their inverses, used
  to state round trips.
 */
module Strings {

  /** Go's `unicode.IsSpace`: the Latin-1 spaces plus Unicode's White_Space property. */
  predicate IsSpace(c: char) {
    || c == '\t' || c == '\n' || c == '\U{B}' || c == '\U{C}' || c == '\r' || c == ' '
    || c == '\U{85}' || c == '\U{A0}' || c == '\U{1680}'
    || ('\U{2000}' <= c <= '\U{200A}')
    || c == '\U{2028}' || c == '\U{2029}' || c == '\U{202F}' || c == '\U{205F}' || c == '\U{3000}'
  }

  /** Every character of `s` is white space (vacuously true of the empty string). */
  predicate IsBlank(s: string) {
    forall i | 0 <= i < |s| :: IsSpace(s[i])
  }

  /** Drops the longest all-space prefix. */
  function TrimLeft(s: string): (r: string)
    ensures |r| <= |s| && r == s[|s| - |r|..]
    ensures forall i | 0 <= i < |s| - |r| :: IsSpace(s[i])
    ensures r == [] || !IsSpace(r[0])
  {
    if s != [] && IsSpace(s[0]) then TrimLeft(s[1..]) else s
  }

  /** Drops the longest all-space suffix. */
  function TrimRight(s: string): (r: string)
    ensures |r| <= |s| && r == s[..|r|]
    ensures forall i | |r| <= i < |s| :: IsSpace(s[i])
    ensures r == [] || !IsSpace(r[|r| - 1])
  {
    if s != [] && IsSpace(s[|s| - 1]) then TrimRight(s[..|s| - 1]) else s
  }

  /** The number of white-space chars `s` starts with. */
  function LeadingSpaces(s: string): (k: nat)
    ensures k <= |s| && IsBlank(s[..k]) && (k == |s| || !IsSpace(s[k]))
  {
    var t := TrimLeft(s);
    assert IsBlank(s[..|s| - |t|]);
    assert t != [] ==> t[0] == s[|s| - |t|];
    |s| - |t|
  }

  /** Go's `strings.TrimSpace`: the result is a slice of the input with only white space
      around it; it is empty exactly for blank input, and otherwise neither starts nor ends
      with white space. */
  function TrimSpace(s: string): (r: string)
    ensures var i := LeadingSpaces(s);
      i + |r| <= |s| && r == s[i..i + |r|] && IsBlank(s[..i]) && IsBlank(s[i + |r|..])
    ensures r == [] <==> IsBlank(s)
    ensures r == [] || (!IsSpace(r[0]) && !IsSpace(r[|r| - 1]))
  {
    var t := TrimLeft(s);
    var r := TrimRight(t);
    TrimmedSlice(s, t, r);
    assert LeadingSpaces(s) == |s| - |t|;
    r
  }

  /** What is left after dropping a white-space prefix and then a white-space suffix is a
      slice of the text with only white space around it, empty exactly for blank text. */
  lemma TrimmedSlice(s: string, t: string, r: string)
    requires |t| <= |s| && t == s[|s| - |t|..] && forall i | 0 <= i < |s| - |t| :: IsSpace(s[i])
    requires t == [] || !IsSpace(t[0])
    requires |r| <= |t| && r == t[..|r|] && forall i | |r| <= i < |t| :: IsSpace(t[i])
    requires r == [] || !IsSpace(r[|r| - 1])
    ensures var i := |s| - |t|;
      i <= |s| - |r| && r == s[i..i + |r|] && IsBlank(s[..i]) && IsBlank(s[i + |r|..])
    ensures r == [] <==> IsBlank(s)
    ensures r == [] || (!IsSpace(r[0]) && !IsSpace(r[|r| - 1]))
  {
    var i := |s| - |t|;
    assert r == s[i..i + |r|];
    BlankTail(t, |r|);
    assert s[i + |r|..] == t[|r|..];
    assert IsBlank(s[..i]);
    if r != [] {
      assert r[0] == t[0] == s[i];
    }
  }

  /** Where each of five concatenated texts sits in the result, and which chars it holds. */
  lemma Concat5(a: string, b: string, c: string, d: string, e: string)
    ensures var x := a + b + c + d + e;
      && |x| == |a| + |b| + |c| + |d| + |e|
      && x[..|a|] == a
      && x[|a|..|a| + |b|] == b
      && x[|a| + |b|..|a| + |b| + |c|] == c
      && x[|a| + |b| + |c|..|a| + |b| + |c| + |d|] == d
      && x[|x| - |e|..] == e
    ensures forall ch :: ch in a + b + c + d + e <==> ch in a || ch in b || ch in c || ch in d || ch in e
  {
  }

  /** A char none of five parts holds is not in their concatenation. */
  lemma NotInConcat5(ch: char, a: string, b: string, c: string, d: string, e: string)
    requires ch !in a && ch !in b && ch !in c && ch !in d && ch !in e
    ensures ch !in a + b + c + d + e
  {
  }

  /** The white-space tail `TrimRight` drops is blank. */
  lemma BlankTail(t: string, n: nat)
    requires n <= |t| && forall i | n <= i < |t| :: IsSpace(t[i])
    ensures IsBlank(t[n..])
  {
    forall k | 0 <= k < |t| - n ensures IsSpace(t[n..][k]) {
      assert t[n..][k] == t[n + k];
    }
  }

  /** Go's `strings.Join`: the parts separated by `sep`, no leading or trailing separator. */
  function Join(parts: seq<string>, sep: string): string {
    if |parts| == 0 then ""
    else if |parts| == 1 then parts[0]
    else parts[0] + sep + Join(parts[1..], sep)
  }

  /** Go's `strings.Split` on a one-character separator: the pieces between occurrences of `c`. */
  function Split(s: string, c: char): (r: seq<string>)
    ensures |r| >= 1
  {
    if s == [] then [[]]
    else
      var rest := Split(s[1..], c);
      if s[0] == c then [[]] + rest else [[s[0]] + rest[0]] + rest[1..]
  }

  /** Splitting a text that starts with a piece free of `c` keeps that piece at the head. */
  lemma {:induction false} SplitPrefix(a: string, t: string, c: char)
    requires c !in a
    ensures Split(a + t, c) == [a + Split(t, c)[0]] + Split(t, c)[1..]
  {
    if a != [] {
      assert (a + t)[1..] == a[1..] + t;
      SplitPrefix(a[1..], t, c);
      assert [a[0]] + (a[1..] + Split(t, c)[0]) == a + Split(t, c)[0];
    } else {
      assert a + t == t;
      var r := Split(t, c);
      assert a + r[0] == r[0];
      assert [r[0]] + r[1..] == r;
    }
  }

  /** Split undoes Join when no part contains the separator. */
  lemma {:induction false} SplitJoin(parts: seq<string>, c: char)
    requires |parts| >= 1
    requires forall i | 0 <= i < |parts| :: c !in parts[i]
    ensures Split(Join(parts, [c]), c) == parts
  {
    if |parts| == 1 {
      SplitPrefix(parts[0], [], c);
      assert parts[0] + [] == parts[0];
    } else {
      var tail := Join(parts[1..], [c]);
      SplitJoin(parts[1..], c);
      assert Join(parts, [c]) == parts[0] + ([c] + tail);
      SplitPrefix(parts[0], [c] + tail, c);
      assert ([c] + tail)[1..] == tail;
      assert Split([c] + tail, c) == [[]] + parts[1..];
      assert parts[0] + [] == parts[0];
      assert [parts[0]] + parts[1..] == parts;
    }
  }

  predicate IsDigit(c: char) {
    '0' <= c <= '9'
  }

  function DigitChar(d: nat): (c: char)
    requires d < 10
    ensures IsDigit(c) && c as int - '0' as int == d
  {
    (d + '0' as int) as char
  }

  /** The `%d` rendering of a natural number: decimal digits, no leading zero. */
  function NatToString(n: nat): (r: string)
    ensures |r| >= 1 && forall i | 0 <= i < |r| :: IsDigit(r[i])
    ensures r[0] == '0' ==> n == 0
  {
    if n < 10 then [DigitChar(n)] else NatToString(n / 10) + [DigitChar(n % 10)]
  }

  /** The number a string of decimal digits denotes. */
  function DecimalValue(s: string): nat
    requires forall i | 0 <= i < |s| :: IsDigit(s[i])
  {
    if s == [] then 0
    else
      assert IsDigit(s[|s| - 1]);
      DecimalValue(s[..|s| - 1]) * 10 + (s[|s| - 1] as int - '0' as int)
  }

  /** Reading back the `%d` rendering gives the number that was printed. */
  lemma {:induction false} DecimalRoundTrip(n: nat)
    ensures DecimalValue(NatToString(n)) == n
  {
    if n >= 10 {
      var r := NatToString(n);
      assert r[..|r| - 1] == NatToString(n / 10);
      DecimalRoundTrip(n / 10);
    }
  }

  /** The longest prefix of `s` made of digits. */
  function LeadingDigits(s: string): (r: string)
    ensures r <= s && forall i | 0 <= i < |r| :: IsDigit(r[i])
  {
    if s != [] && IsDigit(s[0]) then [s[0]] + LeadingDigits(s[1..]) else []
  }

  /** A run of digits found at `at` and followed by a non-digit is exactly the leading
      digits of the text from `at`. */
  lemma LeadingDigitsAt(m: string, at: nat, d: string)
    requires at + |d| < |m| && m[at..at + |d|] == d && !IsDigit(m[at + |d|])
    requires forall i | 0 <= i < |d| :: IsDigit(d[i])
    ensures LeadingDigits(m[at..]) == d
  {
    var t := m[at + |d|..];
    assert m[at..] == d + t;
    LeadingDigitsOf(d, t);
  }

  /** A run of digits followed by a non-digit is exactly the leading digits. */
  lemma {:induction false} LeadingDigitsOf(d: string, t: string)
    requires forall i | 0 <= i < |d| :: IsDigit(d[i])
    requires t != [] && !IsDigit(t[0])
    ensures LeadingDigits(d + t) == d
  {
    if d != [] {
      assert (d + t)[1..] == d[1..] + t;
      LeadingDigitsOf(d[1..], t);
    } else {
      assert d + t == t;
    }
  }
}
