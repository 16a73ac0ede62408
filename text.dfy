/** The string operations the Python portals rely on, with the meaning of
    the Python built-ins they stand for: `str.strip()`, `str.split(sep)`,
    `str.split(sep, 1)`, `str.startswith`, the `in` substring test,
    iteration over the lines of a text file, `str(n)` and `int(s)`. */
module Text {
  datatype Option<T> = None | Some(value: T)

  /** The ASCII characters Python's `str.isspace` accepts. */
  predicate IsSpace(c: char) {
    c == ' ' || '\t' <= c <= '\r' || 28 <= c as int <= 31
  }

  predicate IsDigit(c: char) {
    '0' <= c <= '9'
  }

  predicate AllDigits(s: string) {
    forall k :: 0 <= k < |s| ==> IsDigit(s[k])
  }

  /** `s` begins and ends with a non-space character (or is empty). */
  predicate Trimmed(s: string) {
    |s| == 0 || (!IsSpace(s[0]) && !IsSpace(s[|s| - 1]))
  }

  // ---------------------------------------------------------------- strip

  /** `str.strip()`: whitespace is dropped from both ends until neither
      end is whitespace. */
  function Strip(s: string): (r: string)
    ensures |r| <= |s| && Trimmed(r)
    decreases |s|
  {
    if |s| > 0 && IsSpace(s[0]) then Strip(s[1..])
    else if |s| > 0 && IsSpace(s[|s| - 1]) then Strip(s[..|s| - 1])
    else s
  }

  /** A string that is already trimmed is its own strip. */
  lemma StripTrimmed(s: string)
    requires Trimmed(s)
    ensures Strip(s) == s
  {
  }

  /** Stripping drops trailing whitespace, such as a line's newline. */
  lemma {:induction false} StripTrailing(s: string, t: string)
    requires Trimmed(s) && forall k :: 0 <= k < |t| ==> IsSpace(t[k])
    ensures Strip(s + t) == s
    decreases |t|
  {
    if |t| == 0 {
      assert s + t == s;
    } else if |s| == 0 {
      assert s + t == t && t[1..] == s + t[1..];
      StripTrailing(s, t[1..]);
    } else {
      var u := s + t;
      assert u[0] == s[0] && u[|u| - 1] == t[|t| - 1];
      assert u[..|u| - 1] == s + t[..|t| - 1];
      StripTrailing(s, t[..|t| - 1]);
    }
  }

  // ---------------------------------------------------------------- search

  /** `s.startswith(p)`. */
  predicate StartsWith(s: string, p: string) {
    |p| <= |s| && s[..|p|] == p
  }

  /** `sub in s`: sub occurs somewhere in s. */
  predicate Contains(s: string, sub: string)
    decreases |s|
  {
    StartsWith(s, sub) || (|s| > 0 && Contains(s[1..], sub))
  }

  /** A text without the first character of sub does not contain sub. */
  lemma {:induction false} WithoutFirstChar(s: string, sub: string)
    requires |sub| > 0 && sub[0] !in s
    ensures !Contains(s, sub)
    decreases |s|
  {
    if |s| > 0 {
      assert s[0] != sub[0];
      WithoutFirstChar(s[1..], sub);
    }
  }

  /** Contains means an occurrence at some position. */
  lemma {:induction false} ContainsAt(s: string, sub: string)
    ensures Contains(s, sub) <==> exists i :: 0 <= i <= |s| - |sub| && s[i..][..|sub|] == sub
    decreases |s|
  {
    if StartsWith(s, sub) {
      assert s[0..][..|sub|] == sub;
    }
    if |s| > 0 {
      ContainsAt(s[1..], sub);
      if Contains(s[1..], sub) {
        var i :| 0 <= i <= |s| - 1 - |sub| && s[1..][i..][..|sub|] == sub;
        assert s[i + 1..] == s[1..][i..];
      }
      if exists i :: 0 <= i <= |s| - |sub| && s[i..][..|sub|] == sub {
        var i :| 0 <= i <= |s| - |sub| && s[i..][..|sub|] == sub;
        if i > 0 {
          assert s[1..][i - 1..] == s[i..];
        }
      }
    } else {
      if exists i :: 0 <= i <= |s| - |sub| && s[i..][..|sub|] == sub {
        var i :| 0 <= i <= |s| - |sub| && s[i..][..|sub|] == sub;
        assert i == 0;
      }
    }
  }

  /** The first position of c in s, or -1 when s has none. */
  function IndexOf(s: string, c: char): (i: int)
    ensures -1 <= i < |s|
    ensures i < 0 <==> c !in s
    ensures i >= 0 ==> s[i] == c && c !in s[..i]
  {
    if |s| == 0 then -1
    else if s[0] == c then 0
    else var j := IndexOf(s[1..], c); if j < 0 then -1 else j + 1
  }

  // ---------------------------------------------------------------- split

  /** The inverse of Split: the parts with sep between them. */
  function Join(parts: seq<string>, sep: char): string
    requires |parts| > 0
  {
    if |parts| == 1 then parts[0] else parts[0] + [sep] + Join(parts[1..], sep)
  }

  /** `s.split(sep)` for a one-character separator: the pieces between the
      occurrences of sep, in order, none containing sep. */
  function Split(s: string, sep: char): (parts: seq<string>)
    ensures |parts| > 0
    ensures forall k :: 0 <= k < |parts| ==> sep !in parts[k]
    ensures Join(parts, sep) == s
    decreases |s|
  {
    var i := IndexOf(s, sep);
    if i < 0 then [s]
    else
      var rest := Split(s[i + 1..], sep);
      SplitCons(s, i, sep, rest);
      [s[..i]] + rest
  }

  /** The piece before the first sep, put in front of the split of what
      follows it, splits s. */
  lemma SplitCons(s: string, i: int, sep: char, rest: seq<string>)
    requires 0 <= i < |s| && s[i] == sep && sep !in s[..i]
    requires |rest| > 0 && (forall k :: 0 <= k < |rest| ==> sep !in rest[k]) && Join(rest, sep) == s[i + 1..]
    ensures forall k :: 0 <= k < |[s[..i]] + rest| ==> sep !in ([s[..i]] + rest)[k]
    ensures Join([s[..i]] + rest, sep) == s
  {
    var parts := [s[..i]] + rest;
    assert parts[1..] == rest;
    assert s == s[..i] + [sep] + s[i + 1..];
  }

  /** Splitting the join of sep-free parts gives the parts back. */
  lemma {:induction false} SplitJoin(parts: seq<string>, sep: char)
    requires |parts| > 0 && forall k :: 0 <= k < |parts| ==> sep !in parts[k]
    ensures Split(Join(parts, sep), sep) == parts
    decreases |parts|
  {
    var s := Join(parts, sep);
    if |parts| > 1 {
      var p := parts[0];
      assert s == p + ([sep] + Join(parts[1..], sep));
      var i := IndexOf(s, sep);
      assert s[|p|] == sep;
      assert s[..|p|] == p;
      assert i == |p|;
      assert s[i + 1..] == Join(parts[1..], sep);
      SplitJoin(parts[1..], sep);
      assert parts == [p] + parts[1..];
    }
  }

  /** `s.split(sep)[0]`: the text before the first sep. */
  function BeforeFirst(s: string, sep: char): (r: string)
    ensures sep !in r && StartsWith(s, r)
    ensures r == s <==> sep !in s
  {
    Split(s, sep)[0]
  }

  /** `s.split(sep, 1)[1]` when s holds a sep: the text after the first one. */
  function AfterFirst(s: string, sep: char): (r: string)
    requires sep in s
    ensures s == BeforeFirst(s, sep) + [sep] + r
  {
    s[IndexOf(s, sep) + 1..]
  }

  // ---------------------------------------------------------------- lines

  predicate NoNewline(s: string) {
    '\n' !in s
  }

  /** A line as Python's file iteration yields it: non-empty, with a newline
      at most at its end. */
  predicate IsLine(l: string) {
    |l| > 0 && NoNewline(l[..|l| - 1])
  }

  /** A line that ends with its newline. */
  predicate EndsLine(l: string) {
    |l| > 0 && l[|l| - 1] == '\n'
  }

  function Concat(ls: seq<string>): string {
    if |ls| == 0 then "" else ls[0] + Concat(ls[1..])
  }

  /** Writing one more line appends it to the text. */
  lemma {:induction false} ConcatSnoc(ls: seq<string>, l: string)
    ensures Concat(ls + [l]) == Concat(ls) + l
    decreases |ls|
  {
    if |ls| > 0 {
      assert (ls + [l])[1..] == ls[1..] + [l];
      ConcatSnoc(ls[1..], l);
    } else {
      assert [l][1..] == [];
    }
  }

  /** The lines of a text file in order, each with its newline; the last one
      lacks it when the text does not end with a newline. */
  function Lines(s: string): (ls: seq<string>)
    ensures Concat(ls) == s
    ensures forall k :: 0 <= k < |ls| ==> IsLine(ls[k])
    ensures forall k :: 0 <= k < |ls| - 1 ==> EndsLine(ls[k])
    decreases |s|
  {
    if |s| == 0 then []
    else
      var i := IndexOf(s, '\n');
      if i < 0 then [s]
      else
        var rest := Lines(s[i + 1..]);
        LineAt(s, i);
        LinesCons(s[..i + 1], rest);
        assert s == s[..i + 1] + s[i + 1..];
        [s[..i + 1]] + rest
  }

  /** The text up to and including the first newline is a line that ends
      with it. */
  lemma LineAt(s: string, i: int)
    requires 0 <= i < |s| && s[i] == '\n' && '\n' !in s[..i]
    ensures IsLine(s[..i + 1]) && EndsLine(s[..i + 1])
  {
    assert s[..i + 1][..i] == s[..i];
  }

  /** A line that ends with its newline, put before the lines of the rest. */
  lemma LinesCons(l: string, rest: seq<string>)
    requires IsLine(l) && EndsLine(l)
    requires forall k :: 0 <= k < |rest| ==> IsLine(rest[k])
    requires forall k :: 0 <= k < |rest| - 1 ==> EndsLine(rest[k])
    ensures Concat([l] + rest) == l + Concat(rest)
    ensures forall k :: 0 <= k < |[l] + rest| ==> IsLine(([l] + rest)[k])
    ensures forall k :: 0 <= k < |[l] + rest| - 1 ==> EndsLine(([l] + rest)[k])
  {
    assert ([l] + rest)[1..] == rest;
  }

  /** The first newline of a line followed by more text is the line's own. */
  lemma FirstLine(l: string, t: string)
    requires IsLine(l) && EndsLine(l)
    ensures IndexOf(l + t, '\n') == |l| - 1
    ensures (l + t)[..|l|] == l && (l + t)[|l|..] == t
  {
    var s := l + t;
    assert s[..|l|] == l;
    assert s[..|l| - 1] == l[..|l| - 1];
  }

  /** Writing lines that each end with their only newline and reading the
      file back gives the same lines. */
  lemma {:induction false} LinesConcat(ls: seq<string>)
    requires forall k :: 0 <= k < |ls| ==> IsLine(ls[k]) && EndsLine(ls[k])
    ensures Lines(Concat(ls)) == ls
  {
    if |ls| > 0 {
      var l, t := ls[0], Concat(ls[1..]);
      FirstLine(l, t);
      LinesConcat(ls[1..]);
      assert ls == [l] + ls[1..];
    }
  }

  // ---------------------------------------------------------------- numbers

  function DigitChar(d: int): (c: char)
    requires 0 <= d < 10
    ensures IsDigit(c)
  {
    ('0' as int + d) as char
  }

  function DigitValue(c: char): (d: int)
    requires IsDigit(c)
    ensures 0 <= d < 10 && DigitChar(d) == c
  {
    c as int - '0' as int
  }

  /** The number a digit string denotes; leading zeros are allowed, as in
      Python's `int`. */
  function DigitsValue(s: string): nat
    requires AllDigits(s)
  {
    if |s| == 0 then 0 else DigitsValue(s[..|s| - 1]) * 10 + DigitValue(s[|s| - 1])
  }

  /** `str(n)` for a natural number: decimal digits without leading zeros. */
  function NatToString(n: nat): (s: string)
    ensures |s| > 0 && AllDigits(s)
    ensures s[0] == '0' ==> s == "0"
    ensures n < 10 <==> |s| == 1
    decreases n
  {
    if n < 10 then [DigitChar(n)] else NatToString(n / 10) + [DigitChar(n % 10)]
  }

  /** Reading back a printed natural number gives the number. */
  lemma {:induction false} NatToStringValue(n: nat)
    ensures DigitsValue(NatToString(n)) == n
    decreases n
  {
    if n >= 10 {
      var s := NatToString(n);
      NatToStringValue(n / 10);
      assert s[..|s| - 1] == NatToString(n / 10);
    }
  }

  /** `str(i)` for an integer: a minus sign before the digits of a negative
      number. */
  function IntToString(i: int): (s: string)
    ensures |s| > 0
  {
    if i < 0 then "-" + NatToString(-i) else NatToString(i)
  }

  /** A printed integer is a sign and digits: no blanks around it, and no
      colon, space or newline in it. */
  lemma PrintedChars(i: int)
    ensures Trimmed(IntToString(i))
    ensures ':' !in IntToString(i) && ' ' !in IntToString(i) && NoNewline(IntToString(i))
  {
    var s := IntToString(i);
    var d := NatToString(if i < 0 then -i else i);
    assert forall k :: 0 <= k < |d| ==> IsDigit(d[k]);
    if i < 0 {
      assert s == "-" + d;
      assert forall k :: 1 <= k < |s| ==> s[k] == d[k - 1];
    }
  }

  /** The literal Python's `int` reads after stripping: an optional sign
      and at least one decimal digit. */
  predicate IsIntLiteral(t: string) {
    if |t| > 0 && (t[0] == '-' || t[0] == '+') then |t| > 1 && AllDigits(t[1..])
    else |t| > 0 && AllDigits(t)
  }

  /** `int(s)` for a string: None where Python raises ValueError. */
  function ParseInt(s: string): Option<int> {
    ParseLiteral(Strip(s))
  }

  /** The value of a stripped literal, or None when it is no literal. */
  function ParseLiteral(t: string): (r: Option<int>)
    ensures r.Some? <==> IsIntLiteral(t)
  {
    if |t| > 0 && (t[0] == '-' || t[0] == '+') then
      if |t| > 1 && AllDigits(t[1..]) then
        var v: int := DigitsValue(t[1..]);
        Some(if t[0] == '-' then -v else v)
      else None
    else if |t| > 0 && AllDigits(t) then Some(DigitsValue(t))
    else None
  }

  /** `int(str(i)) == i`. */
  lemma ParseIntToString(i: int)
    ensures ParseInt(IntToString(i)) == Some(i)
  {
    PrintedStripped(i);
    PrintedLiteral(i);
  }

  /** A printed integer has no spaces to strip. */
  lemma PrintedStripped(i: int)
    ensures ParseInt(IntToString(i)) == ParseLiteral(IntToString(i))
  {
    PrintedChars(i);
    StripTrimmed(IntToString(i));
  }

  /** A printed integer is the literal of itself. */
  lemma PrintedLiteral(i: int)
    ensures ParseLiteral(IntToString(i)) == Some(i)
  {
    if i < 0 {
      NegativeLiteral(-i);
    } else {
      NaturalLiteral(i);
    }
  }

  /** The digits of n read back as n. */
  lemma NaturalLiteral(n: nat)
    ensures ParseLiteral(NatToString(n)) == Some(n)
  {
    var t := NatToString(n);
    assert IsDigit(t[0]);
    NatToStringValue(n);
  }

  /** A minus sign before the digits of n reads back as -n. */
  lemma NegativeLiteral(n: nat)
    ensures ParseLiteral("-" + NatToString(n)) == Some(-(n as int))
  {
    var t := "-" + NatToString(n);
    assert t[1..] == NatToString(n);
    NatToStringValue(n);
  }
}
