/** String operations of the Python standard library that the client relies on:
    `str.split` and `str.join` with a one-character separator, `str.replace`,
    `in`, `startswith`/`endswith`, `str.lower` (ASCII part), `str(n)` and `int(s)`. */
module Strings {

  datatype Option<T> = None | Some(value: T)

  predicate IsPrefix(p: string, s: string) {
    |p| <= |s| && s[..|p|] == p
  }

  predicate IsSuffix(p: string, s: string) {
    |p| <= |s| && s[|s| - |p|..] == p
  }

  /** Python's `sub in s`. */
  predicate Contains(s: string, sub: string)
    decreases |s|
  {
    IsPrefix(sub, s) || (|s| > 0 && Contains(s[1..], sub))
  }

  predicate IsAsciiDigit(c: char) { '0' <= c <= '9' }

  predicate IsAsciiLower(c: char) { 'a' <= c <= 'z' }

  predicate AllDigits(s: string) {
    forall i :: 0 <= i < |s| ==> IsAsciiDigit(s[i])
  }

  predicate AllLower(s: string) {
    forall i :: 0 <= i < |s| ==> IsAsciiLower(s[i])
  }

  function CountChar(s: string, c: char): nat
    decreases |s|
  {
    if s == [] then 0 else (if s[0] == c then 1 else 0) + CountChar(s[1..], c)
  }

  /** Python's `s.split(c)`: the pieces between occurrences of `c`; there is always one more
      piece than there are separators. */
  function Split(s: string, c: char): (parts: seq<string>)
    ensures |parts| == CountChar(s, c) + 1
    decreases |s|
  {
    if s == [] then [[]]
    else if s[0] == c then [[]] + Split(s[1..], c)
    else
      var rest := Split(s[1..], c);
      [[s[0]] + rest[0]] + rest[1..]
  }

  /** Python's `c.join(parts)`. */
  function Join(c: char, parts: seq<string>): string
    decreases |parts|
  {
    if |parts| == 0 then []
    else if |parts| == 1 then parts[0]
    else parts[0] + [c] + Join(c, parts[1..])
  }

  /** Python's `s.replace(a, b)` for one-character arguments. */
  function ReplaceChar(s: string, a: char, b: char): (r: string)
    ensures |r| == |s|
  {
    seq(|s|, i requires 0 <= i < |s| => if s[i] == a then b else s[i])
  }

  /** Python's `s.replace(pat, rep)`: every non-overlapping occurrence, scanning left to right. */
  function ReplaceAll(s: string, pat: string, rep: string): string
    requires pat != []
    decreases |s|
  {
    if |s| < |pat| then s
    else if s[..|pat|] == pat then rep + ReplaceAll(s[|pat|..], pat, rep)
    else [s[0]] + ReplaceAll(s[1..], pat, rep)
  }

  /** `str.lower()` on the ASCII letters; every other character is kept. */
  function Lower(s: string): (r: string)
    ensures |r| == |s|
  {
    seq(|s|, i requires 0 <= i < |s| =>
      if 'A' <= s[i] <= 'Z' then (s[i] as int + 32) as char else s[i])
  }

  /** Length of the longest prefix of ASCII lower-case letters. */
  function LowerRun(s: string): (n: nat)
    ensures n <= |s|
    ensures AllLower(s[..n])
    ensures n < |s| ==> !IsAsciiLower(s[n])
    decreases |s|
  {
    if s != [] && IsAsciiLower(s[0]) then 1 + LowerRun(s[1..]) else 0
  }

  /** Length of the longest prefix of ASCII digits. */
  function DigitRun(s: string): (n: nat)
    ensures n <= |s|
    ensures AllDigits(s[..n])
    ensures n < |s| ==> !IsAsciiDigit(s[n])
    decreases |s|
  {
    if s != [] && IsAsciiDigit(s[0]) then 1 + DigitRun(s[1..]) else 0
  }

  function DigitChar(d: nat): char
    requires d < 10
  {
    ('0' as int + d) as char
  }

  /** Python's `str(n)` for a natural number. */
  function Decimal(n: nat): (s: string)
    ensures |s| >= 1 && AllDigits(s)
    decreases n
  {
    if n < 10 then [DigitChar(n)] else Decimal(n / 10) + [DigitChar(n % 10)]
  }

  /** The value of a string of ASCII digits. */
  function DigitsValue(s: string): nat
    requires AllDigits(s)
    decreases |s|
  {
    if s == [] then 0
    else DigitsValue(s[..|s| - 1]) * 10 + (s[|s| - 1] as int - '0' as int)
  }

  predicate IsAsciiSpace(c: char) {
    c == ' ' || c == '\t' || c == '\n' || c == '\r' || c == '\U{B}' || c == '\U{C}'
  }

  function StripLeft(s: string): (r: string)
    ensures |r| <= |s|
    decreases |s|
  {
    if s != [] && IsAsciiSpace(s[0]) then StripLeft(s[1..]) else s
  }

  function StripRight(s: string): (r: string)
    ensures |r| <= |s|
    decreases |s|
  {
    if s != [] && IsAsciiSpace(s[|s| - 1]) then StripRight(s[..|s| - 1]) else s
  }

  /** Python's `int(s)` on decimal text: surrounding white space, an optional sign and at least one
      digit; `None` stands for the `ValueError` it raises on anything else. */
  function ParseInt(s: string): Option<int>
  {
    var t := StripRight(StripLeft(s));
    if t == [] then None
    else
      var sign, digits := (if t[0] == '-' then -1 else 1), (if t[0] == '-' || t[0] == '+' then t[1..] else t);
      if digits != [] && AllDigits(digits) then Some(sign * DigitsValue(digits)) else None
  }

  // ---------------------------------------------------------------------------------------------
  // Lemmas

  lemma {:induction false} SplitConcat(a: string, b: string, c: char)
    ensures Split(a + [c] + b, c) == Split(a, c) + Split(b, c)
    decreases |a|
  {
    if a == [] {
      assert a + [c] + b == [c] + b;
      assert ([c] + b)[1..] == b;
    } else {
      assert (a + [c] + b)[1..] == a[1..] + [c] + b;
      SplitConcat(a[1..], b, c);
    }
  }

  lemma {:induction false} CountCharPositive(s: string, c: char)
    ensures c in s <==> CountChar(s, c) > 0
    decreases |s|
  {
    if s != [] {
      CountCharPositive(s[1..], c);
      assert s == [s[0]] + s[1..];
    }
  }

  /** There is more than one piece exactly when the separator occurs. */
  lemma SplitHasSep(s: string, c: char)
    ensures c in s <==> |Split(s, c)| >= 2
  {
    CountCharPositive(s, c);
  }

  /** No piece contains the separator. */
  lemma {:induction false} SplitPartsLack(s: string, c: char)
    ensures forall i :: 0 <= i < |Split(s, c)| ==> c !in Split(s, c)[i]
    decreases |s|
  {
    if s != [] {
      SplitPartsLack(s[1..], c);
      var rest := Split(s[1..], c);
      if s[0] != c {
        assert c !in [s[0]] + rest[0];
      }
    }
  }

  lemma {:induction false} SplitNoSep(s: string, c: char)
    requires c !in s
    ensures Split(s, c) == [s]
    decreases |s|
  {
    if s != [] {
      SplitNoSep(s[1..], c);
      assert [s[0]] + s[1..] == s;
    }
  }

  /** A character absent from the text is absent from every piece. */
  lemma {:induction false} SplitPartsLackChar(s: string, c: char, x: char)
    requires x !in s
    ensures forall i :: 0 <= i < |Split(s, c)| ==> x !in Split(s, c)[i]
    decreases |s|
  {
    if s != [] {
      SplitPartsLackChar(s[1..], c, x);
      var rest := Split(s[1..], c);
      if s[0] != c {
        assert x !in [s[0]] + rest[0];
      }
    }
  }

  /** Two pieces around one separator. */
  lemma SplitPair(a: string, b: string, c: char)
    requires c !in a && c !in b
    ensures Split(a + [c] + b, c) == [a, b]
    ensures CountChar(a + [c] + b, c) == 1
  {
    SplitConcat(a, b, c);
    SplitNoSep(a, c);
    SplitNoSep(b, c);
  }

  lemma {:induction false} JoinSplit(s: string, c: char)
    ensures Join(c, Split(s, c)) == s
    decreases |s|
  {
    if s == [] {
    } else if s[0] == c {
      JoinSplit(s[1..], c);
      assert s == [] + [c] + s[1..];
    } else {
      var rest := Split(s[1..], c);
      var parts := Split(s, c);
      JoinSplit(s[1..], c);
      assert parts == [[s[0]] + rest[0]] + rest[1..];
      assert s == [s[0]] + s[1..];
      if |rest| == 1 {
        assert Join(c, rest) == rest[0];
        assert parts == [[s[0]] + rest[0]];
      } else {
        assert Join(c, rest) == rest[0] + [c] + Join(c, rest[1..]);
        assert parts[1..] == rest[1..];
        assert Join(c, parts) == ([s[0]] + rest[0]) + [c] + Join(c, rest[1..]);
      }
    }
  }

  lemma {:induction false} SplitJoin(parts: seq<string>, c: char)
    requires |parts| >= 1
    requires forall i :: 0 <= i < |parts| ==> c !in parts[i]
    ensures Split(Join(c, parts), c) == parts
    decreases |parts|
  {
    if |parts| == 1 {
      SplitNoSep(parts[0], c);
    } else {
      SplitJoin(parts[1..], c);
      SplitConcat(parts[0], Join(c, parts[1..]), c);
      SplitNoSep(parts[0], c);
      assert [parts[0]] + parts[1..] == parts;
    }
  }

  lemma {:induction false} JoinSnoc(parts: seq<string>, x: string, c: char)
    requires |parts| >= 1
    ensures Join(c, parts + [x]) == Join(c, parts) + [c] + x
    decreases |parts|
  {
    if |parts| == 1 {
      assert (parts + [x])[1..] == [x];
    } else {
      assert (parts + [x])[1..] == parts[1..] + [x];
      JoinSnoc(parts[1..], x, c);
    }
  }

  lemma {:induction false} JoinAppend(a: seq<string>, b: seq<string>, c: char)
    requires |a| >= 1 && |b| >= 1
    ensures Join(c, a + b) == Join(c, a) + [c] + Join(c, b)
    decreases |a|
  {
    if |a| == 1 {
      assert (a + b)[1..] == b;
    } else {
      assert (a + b)[1..] == a[1..] + b;
      JoinAppend(a[1..], b, c);
    }
  }

  lemma Join3(x: string, y: string, z: string, c: char)
    ensures Join(c, [x, y, z]) == x + [c] + y + [c] + z
  {
    assert [x, y, z][1..] == [y, z];
    assert [y, z][1..] == [z];
    assert Join(c, [z]) == z;
  }

  lemma {:induction false} JoinHasNoChar(parts: seq<string>, c: char, d: char)
    requires forall i :: 0 <= i < |parts| ==> d !in parts[i]
    requires c != d
    ensures d !in Join(c, parts)
    decreases |parts|
  {
    if |parts| > 1 {
      JoinHasNoChar(parts[1..], c, d);
    }
  }

  lemma {:induction false} JoinHasChar(parts: seq<string>, c: char)
    requires |parts| >= 2
    ensures c in Join(c, parts)
  {
    assert Join(c, parts)[|parts[0]|] == c;
  }

  lemma {:induction false} JoinReplace(parts: seq<string>, c: char, d: char)
    requires forall i :: 0 <= i < |parts| ==> c !in parts[i]
    ensures ReplaceChar(Join(c, parts), c, d) == Join(d, parts)
    decreases |parts|
  {
    if |parts| == 1 {
      ReplaceNothing(parts[0], c, d);
    } else if |parts| > 1 {
      JoinReplace(parts[1..], c, d);
      ReplaceConcat(parts[0] + [c], Join(c, parts[1..]), c, d);
      ReplaceConcat(parts[0], [c], c, d);
      ReplaceNothing(parts[0], c, d);
    }
  }

  lemma ReplaceNothing(s: string, a: char, b: char)
    requires a !in s
    ensures ReplaceChar(s, a, b) == s
  {
  }

  lemma ReplaceConcat(x: string, y: string, a: char, b: char)
    ensures ReplaceChar(x + y, a, b) == ReplaceChar(x, a, b) + ReplaceChar(y, a, b)
  {
  }

  lemma {:induction false} CountCharConcat(x: string, y: string, c: char)
    ensures CountChar(x + y, c) == CountChar(x, c) + CountChar(y, c)
    decreases |x|
  {
    if x != [] {
      assert (x + y)[0] == x[0];
      assert (x + y)[1..] == x[1..] + y;
      CountCharConcat(x[1..], y, c);
    } else {
      assert x + y == y;
    }
  }

  lemma {:induction false} CountCharAbsent(s: string, c: char)
    requires c !in s
    ensures CountChar(s, c) == 0
    decreases |s|
  {
    if s != [] {
      CountCharAbsent(s[1..], c);
    }
  }

  /** A pattern whose first character does not occur in `s` is never replaced inside `s`. */
  lemma {:induction false} ReplaceAllSkip(a: string, b: string, pat: string, rep: string)
    requires pat != [] && pat[0] !in a
    ensures ReplaceAll(a + b, pat, rep) == a + ReplaceAll(b, pat, rep)
    decreases |a|
  {
    if a != [] {
      var s := a + b;
      assert s[0] == a[0] != pat[0];
      if |s| < |pat| {
        ReplaceAllShort(b, pat, rep);
      } else {
        assert s[..|pat|] != pat;
        assert s[1..] == a[1..] + b;
        ReplaceAllSkip(a[1..], b, pat, rep);
        assert ReplaceAll(s, pat, rep) == [a[0]] + (a[1..] + ReplaceAll(b, pat, rep));
        assert [a[0]] + a[1..] == a;
      }
    } else {
      assert a + b == b;
    }
  }

  lemma ReplaceAllShort(s: string, pat: string, rep: string)
    requires pat != [] && |s| < |pat|
    ensures ReplaceAll(s, pat, rep) == s
  {
  }

  lemma {:induction false} ParseDecimal(n: nat)
    ensures ParseInt(Decimal(n)) == Some(n)
  {
    var s := Decimal(n);
    assert IsAsciiDigit(s[0]) && IsAsciiDigit(s[|s| - 1]);
    assert StripLeft(s) == s;
    assert StripRight(s) == s;
    assert s[0] != '-' && s[0] != '+';
    DecimalValue(n);
    assert ParseInt(s) == Some(1 * DigitsValue(s));
  }

  lemma {:induction false} DecimalValue(n: nat)
    ensures DigitsValue(Decimal(n)) == n
    decreases n
  {
    if n >= 10 {
      var s := Decimal(n);
      DecimalValue(n / 10);
      assert s[..|s| - 1] == Decimal(n / 10);
    }
  }

  /** Dropping a prefix that lacks the pattern's first character does not change containment. */
  lemma {:induction false} ContainsSkip(a: string, b: string, pat: string)
    requires pat != [] && pat[0] !in a
    ensures Contains(a + b, pat) == Contains(b, pat)
    decreases |a|
  {
    if a != [] {
      assert (a + b)[0] != pat[0];
      assert !IsPrefix(pat, a + b);
      assert (a + b)[1..] == a[1..] + b;
      ContainsSkip(a[1..], b, pat);
      assert Contains(a + b, pat) == Contains(a[1..] + b, pat);
    } else {
      assert a + b == b;
    }
  }

  lemma {:induction false} ContainsShort(s: string, pat: string)
    requires |s| < |pat|
    ensures !Contains(s, pat)
    decreases |s|
  {
    if s != [] {
      ContainsShort(s[1..], pat);
    }
  }
}
