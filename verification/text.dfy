/** The parts of Python's `str` and `int` that the table updater relies on:
    whitespace stripping, `startswith`, `in` on strings, `split` and `join`
    on one separator character, ASCII `lower`, `replace` of one character,
    `int(...)` on a decimal literal and `str(...)` of an integer. */
module PyText {

  datatype Option<+T> = None | Some(value: T)

  /** Python's `str.isspace()` on one character; also what the regular
      expression class `\s` matches in a `str` pattern. */
  predicate IsSpace(c: char) {
    || ('\U{0009}' <= c <= '\U{000D}')
    || ('\U{001C}' <= c <= '\U{0020}')
    || c == '\U{0085}' || c == '\U{00A0}' || c == '\U{1680}'
    || ('\U{2000}' <= c <= '\U{200A}')
    || c == '\U{2028}' || c == '\U{2029}' || c == '\U{202F}'
    || c == '\U{205F}' || c == '\U{3000}'
  }

  /** A string without whitespace at either end, as `strip()` leaves it. */
  predicate Stripped(s: string) {
    s == [] || (!IsSpace(s[0]) && !IsSpace(s[|s| - 1]))
  }

  /** Number of leading whitespace characters. */
  function Indent(s: string): (n: nat)
    ensures n <= |s|
    ensures forall i {:trigger IsSpace(s[i])} :: 0 <= i < n ==> IsSpace(s[i])
    ensures n < |s| ==> !IsSpace(s[n])
  {
    if s == [] || !IsSpace(s[0]) then 0 else 1 + Indent(s[1..])
  }

  /** `s.rstrip()` */
  function RStrip(s: string): (r: string)
    ensures |r| <= |s| && r == s[..|r|]
    ensures forall i {:trigger IsSpace(s[i])} :: |r| <= i < |s| ==> IsSpace(s[i])
    ensures r == [] || !IsSpace(r[|r| - 1])
  {
    if s == [] || !IsSpace(s[|s| - 1]) then s else RStrip(s[..|s| - 1])
  }

  /** `s.strip()` */
  function Strip(s: string): (r: string)
    ensures Stripped(r)
    ensures Indent(s) + |r| <= |s| && r == s[Indent(s)..Indent(s) + |r|]
    ensures forall i {:trigger IsSpace(s[i])} :: Indent(s) + |r| <= i < |s| ==> IsSpace(s[i])
  {
    RStrip(s[Indent(s)..])
  }

  /** `s.startswith(p)` */
  predicate StartsWith(s: string, p: string) {
    |p| <= |s| && s[..|p|] == p
  }

  /** `t` occurs in `s` at position `i` */
  predicate OccursAt(s: string, t: string, i: int) {
    0 <= i && i + |t| <= |s| && s[i..i + |t|] == t
  }

  /** `t in s` for two strings */
  predicate Contains(s: string, t: string) {
    exists i :: 0 <= i <= |s| - |t| && OccursAt(s, t, i)
  }

  /** Position of the first `c` in `s`, or `|s|` when there is none. */
  function Find(s: string, c: char): (i: nat)
    ensures i <= |s|
    ensures i < |s| ==> s[i] == c
    ensures c !in s[..i]
  {
    if s == [] || s[0] == c then 0 else 1 + Find(s[1..], c)
  }

  /** `sep.join(parts)` for a one-character separator */
  function Join(parts: seq<string>, sep: char): string {
    if |parts| == 0 then ""
    else if |parts| == 1 then parts[0]
    else parts[0] + [sep] + Join(parts[1..], sep)
  }

  /** `s.split(sep)` for a one-character separator: the pieces between
      consecutive separators, empty pieces included, so there is always
      one piece more than there are separators. */
  function Split(s: string, sep: char): (parts: seq<string>)
    ensures |parts| >= 1
    ensures forall i :: 0 <= i < |parts| ==> sep !in parts[i]
    ensures Join(parts, sep) == s
    decreases |s|
  {
    var i := Find(s, sep);
    if i == |s| then [s] else [s[..i]] + Split(s[i + 1..], sep)
  }

  /** ASCII `lower()` of one character. */
  function LowerChar(c: char): char {
    if 'A' <= c <= 'Z' then (c as int + 32) as char else c
  }

  /** `s.lower()`, ASCII letters only */
  function Lower(s: string): (r: string)
    ensures |r| == |s|
    ensures forall i {:trigger r[i]} :: 0 <= i < |s| ==> r[i] == LowerChar(s[i])
  {
    seq(|s|, i requires 0 <= i < |s| => LowerChar(s[i]))
  }

  /** `s.replace(a, b)` for one-character `a` and `b` */
  function Replace(s: string, a: char, b: char): (r: string)
    ensures |r| == |s|
    ensures forall i {:trigger r[i]} :: 0 <= i < |s| ==> r[i] == if s[i] == a then b else s[i]
  {
    seq(|s|, i requires 0 <= i < |s| => if s[i] == a then b else s[i])
  }

  predicate IsDigit(c: char) {
    '0' <= c <= '9'
  }

  /** The digits of a decimal literal as `int()` accepts them: ASCII
      digits, with single underscores allowed between two digits. */
  predicate DigitRun(d: string)
    decreases |d|
  {
    |d| >= 1 && IsDigit(d[0]) && (|d| == 1 || DigitRun(if d[1] == '_' then d[2..] else d[1..]))
  }

  /** Value of a run of digits, underscores skipped. */
  function DigitsValue(d: string): nat {
    if d == [] then 0
    else if IsDigit(d[|d| - 1]) then DigitsValue(d[..|d| - 1]) * 10 + (d[|d| - 1] as int - '0' as int)
    else DigitsValue(d[..|d| - 1])
  }

  /** `int(s)` for a string that `strip()` has already trimmed, as the
      updater's only call (updater.py:105) does: an optional sign and a run
      of digits; anything else raises ValueError, here `None`. The inner
      `Strip` then changes nothing (`ParseIntStripped`); on untrimmed text
      it would be wider than `int()`'s own trimming, which leaves, for
      example, U+001C to U+001F in place. */
  function ParseInt(s: string): Option<int> {
    var t := Strip(s);
    if |t| >= 1 && (t[0] == '-' || t[0] == '+') then
      if DigitRun(t[1..]) then
        Some(if t[0] == '-' then -(DigitsValue(t[1..]) as int) else DigitsValue(t[1..]))
      else None
    else if DigitRun(t) then Some(DigitsValue(t))
    else None
  }

  function DigitChar(n: nat): char
    requires n < 10
  {
    ('0' as int + n) as char
  }

  /** `str(n)` for a natural number: its decimal digits, most significant first. */
  function NatToString(n: nat): (r: string)
    ensures |r| >= 1
    ensures forall i :: 0 <= i < |r| ==> IsDigit(r[i])
  {
    if n < 10 then [DigitChar(n)] else NatToString(n / 10) + [DigitChar(n % 10)]
  }

  /** The digits of `str(n)` have the value `n`. */
  lemma {:induction false} NatToStringValue(n: nat)
    ensures DigitsValue(NatToString(n)) == n
  {
    if n >= 10 {
      var r := NatToString(n);
      assert r[..|r| - 1] == NatToString(n / 10);
      NatToStringValue(n / 10);
    }
  }

  /** `str(n)`: a minus sign for a negative number, then the digits. */
  function IntToString(n: int): (r: string)
    ensures |r| >= 1
    ensures forall i :: 0 <= i < |r| ==> IsDigit(r[i]) || r[i] == '-'
  {
    if n < 0 then "-" + NatToString(-n) else NatToString(n)
  }

  /** `ParseInt(IntToString(n)) == Some(n)`: in the model, a written
      index parses back as itself (CPython's 4300-digit limit aside). */
  lemma IntToStringParses(n: int)
    ensures ParseInt(IntToString(n)) == Some(n)
  {
    var d := NatToString(if n < 0 then -n else n);
    NatToStringValue(if n < 0 then -n else n);
    if n < 0 {
      ParseSigned(d);
      assert IntToString(n) == "-" + d;
    } else {
      ParseUnsigned(d);
      assert IntToString(n) == d;
    }
  }

  /** A digit string is its own strip. */
  lemma DigitsStripped(d: string)
    requires forall i :: 0 <= i < |d| ==> IsDigit(d[i]) || d[i] == '-'
    ensures Strip(d) == d
  {
    if d != [] {
      assert !IsSpace(d[0]);
      assert Indent(d) == 0;
      assert d[0..] == d;
      assert !IsSpace(d[|d| - 1]);
    } else {
      assert d[0..] == d;
    }
  }

  lemma {:induction false} DigitsAreRun(d: string)
    requires |d| >= 1
    requires forall i :: 0 <= i < |d| ==> IsDigit(d[i])
    ensures DigitRun(d)
    decreases |d|
  {
    if |d| > 1 {
      DigitsAreRun(d[1..]);
    }
  }

  lemma ParseUnsigned(d: string)
    requires |d| >= 1
    requires forall i :: 0 <= i < |d| ==> IsDigit(d[i])
    ensures ParseInt(d) == Some(DigitsValue(d))
  {
    DigitsStripped(d);
    DigitsAreRun(d);
    assert !(d[0] == '-' || d[0] == '+');
  }

  lemma ParseSigned(d: string)
    requires |d| >= 1
    requires forall i :: 0 <= i < |d| ==> IsDigit(d[i])
    ensures ParseInt("-" + d) == Some(-(DigitsValue(d) as int))
  {
    var r := "-" + d;
    assert Strip(r) == r by {
      forall i | 0 <= i < |r|
        ensures IsDigit(r[i]) || r[i] == '-'
      {
        if i > 0 {
          assert r[i] == d[i - 1];
        }
      }
      DigitsStripped(r);
    }
    assert DigitRun(d) by {
      DigitsAreRun(d);
    }
    ParseNegative(r, d);
  }

  lemma ParseNegative(r: string, d: string)
    requires Strip(r) == r && r == "-" + d && DigitRun(d)
    ensures ParseInt(r) == Some(-(DigitsValue(d) as int))
  {
    assert r[0] == '-' && r[1..] == d;
  }

  // ---------------------------------------------------------------------
  // Lemmas about split, join and strip

  /** A separator placed after a separator-free piece ends that piece. */
  lemma {:induction false} FindAfter(a: string, sep: char, b: string)
    requires sep !in a
    ensures Find(a + [sep] + b, sep) == |a|
  {
    if a != [] {
      assert (a + [sep] + b)[1..] == a[1..] + [sep] + b;
      FindAfter(a[1..], sep, b);
    }
  }

  lemma FindNone(s: string, sep: char)
    requires sep !in s
    ensures Find(s, sep) == |s|
  {
  }

  /** Splitting a separator-free piece followed by a separator. */
  lemma SplitCons(a: string, sep: char, b: string)
    requires sep !in a
    ensures Split(a + [sep] + b, sep) == [a] + Split(b, sep)
  {
    var s := a + [sep] + b;
    FindAfter(a, sep, b);
    assert s[..|a|] == a && s[|a| + 1..] == b;
  }

  /** `sep.join(s.split(sep))` gives back `s` (an ensures of Split), and
      splitting a join of separator-free pieces gives back the pieces. */
  lemma {:induction false} SplitJoin(parts: seq<string>, sep: char)
    requires |parts| >= 1
    requires forall i :: 0 <= i < |parts| ==> sep !in parts[i]
    ensures Split(Join(parts, sep), sep) == parts
  {
    if |parts| == 1 {
      FindNone(parts[0], sep);
    } else {
      SplitCons(parts[0], sep, Join(parts[1..], sep));
      SplitJoin(parts[1..], sep);
    }
  }

  /** Joining after the last piece is appending it. */
  lemma {:induction false} JoinSnoc(parts: seq<string>, sep: char, last: string)
    requires |parts| >= 1
    ensures Join(parts + [last], sep) == Join(parts, sep) + [sep] + last
  {
    if |parts| > 1 {
      assert (parts + [last])[1..] == parts[1..] + [last];
      JoinSnoc(parts[1..], sep, last);
    }
  }

  /** `rstrip` only looks at the end: a prefix ending in a non-space stays. */
  lemma {:induction false} RStripConcat(a: string, b: string)
    requires a == [] || !IsSpace(a[|a| - 1])
    ensures RStrip(a + b) == a + RStrip(b)
  {
    if b == [] {
      assert a + b == a;
    } else if IsSpace(b[|b| - 1]) {
      assert (a + b)[..|a + b| - 1] == a + b[..|b| - 1];
      RStripConcat(a, b[..|b| - 1]);
    }
  }

  lemma RStripSpace(s: string, c: char)
    requires IsSpace(c)
    ensures RStrip(s + [c]) == RStrip(s)
  {
    assert (s + [c])[..|s|] == s;
  }

  /** Stripping a stripped text between single spaces gives the text back. */
  lemma StripPadded(x: string)
    requires Stripped(x)
    ensures Strip(" " + x + " ") == x
  {
    var s := " " + x + " ";
    if x == [] {
      assert Indent(s) == 2;
      assert s[2..] == [];
    } else {
      assert Indent(s) == 1;
      assert s[1..] == x + " ";
      RStripSpace(x, ' ');
      assert RStrip(x + " ") == RStrip(x + [' ']);
    }
  }

  /** A string that starts with a non-space is stripped at its end only. */
  lemma StripFromNonSpace(s: string)
    requires |s| > 0 && !IsSpace(s[0])
    ensures Strip(s) == RStrip(s)
  {
    assert Indent(s) == 0;
    assert s[0..] == s;
  }

  /** Splitting where the first separator lies in the prefix. */
  lemma SplitAppend(a: string, sep: char, b: string)
    requires Find(a, sep) < |a|
    ensures Split(a + b, sep) == [a[..Find(a, sep)]] + Split(a[Find(a, sep) + 1..] + b, sep)
    ensures Split(a, sep) == [a[..Find(a, sep)]] + Split(a[Find(a, sep) + 1..], sep)
  {
    var f := Find(a, sep);
    FindPrefix(a, sep, b);
    assert (a + b)[f + 1..] == a[f + 1..] + b;
    assert (a + b)[..f] == a[..f];
  }

  /** The first two pieces of a split do not depend on anything after the
      second separator. */
  lemma SplitFirstTwo(a: string, sep: char, b: string)
    requires |Split(a, sep)| >= 3
    ensures |Split(a + b, sep)| >= 2
    ensures Split(a + b, sep)[0] == Split(a, sep)[0]
    ensures Split(a + b, sep)[1] == Split(a, sep)[1]
  {
    var f := Find(a, sep);
    SplitAppend(a, sep, b);
    var a' := a[f + 1..];
    var tail := Split(a', sep);
    assert Split(a, sep) == [a[..f]] + tail;
    assert |tail| >= 2;
    var g := Find(a', sep);
    SplitAppend(a', sep, b);
    var tailB := Split(a' + b, sep);
    assert tailB[0] == a'[..g] == tail[0];
  }

  lemma {:induction false} FindPrefix(a: string, sep: char, b: string)
    requires Find(a, sep) < |a|
    ensures Find(a + b, sep) == Find(a, sep)
  {
    if a[0] != sep {
      assert (a + b)[1..] == a[1..] + b;
      FindPrefix(a[1..], sep, b);
    }
  }

  /** A string that starts with the separator splits into an empty first
      piece and at least one more. */
  lemma SplitLeading(s: string, sep: char)
    requires |s| > 0 && s[0] == sep
    ensures |Split(s, sep)| >= 2 && Split(s, sep)[0] == ""
    ensures Split(s, sep) == [""] + Split(s[1..], sep)
  {
    assert Find(s, sep) == 0;
  }

  /** Joining a first piece in front of at least one more. */
  lemma JoinCons(a: string, rest: seq<string>, sep: char)
    requires |rest| >= 1
    ensures Join([a] + rest, sep) == a + [sep] + Join(rest, sep)
  {
    assert ([a] + rest)[1..] == rest;
  }

  /** `strip()` leaves a stripped string as it is. */
  lemma StripStripped(s: string)
    requires Stripped(s)
    ensures Strip(s) == s
  {
    if s != [] {
      assert Indent(s) == 0;
      assert s[0..] == s;
    }
  }

  lemma StripIdempotent(s: string)
    ensures Strip(Strip(s)) == Strip(s)
  {
    StripStripped(Strip(s));
  }

  /** `ParseInt(Strip(s)) == ParseInt(s)`: in the model, the `strip()`
      before the parse loses nothing. */
  lemma ParseIntStripped(s: string)
    ensures ParseInt(Strip(s)) == ParseInt(s)
  {
    StripIdempotent(s);
  }

  /** Whitespace appended at the end makes no difference to `strip()`. */
  lemma StripAppendSpace(s: string, c: char)
    requires IsSpace(c)
    ensures Strip(s + [c]) == Strip(s)
  {
    var w := Indent(s);
    var t := s + [c];
    if w == |s| {
      assert forall i :: 0 <= i < |t| ==> IsSpace(t[i]);
      assert Indent(t) == |t|;
      assert t[|t|..] == [] && s[|s|..] == [];
    } else {
      assert t[w] == s[w] && forall i :: 0 <= i < w ==> t[i] == s[i];
      assert Indent(t) == w;
      assert t[w..] == s[w..] + [c];
      RStripSpace(s[w..], c);
    }
  }

  /** Whitespace put in front makes no difference to `strip()`. */
  lemma StripPrependSpace(c: char, s: string)
    requires IsSpace(c)
    ensures Strip([c] + s) == Strip(s)
  {
    var t := [c] + s;
    assert t[1..] == s;
    assert Indent(t) == 1 + Indent(s);
    assert t[1 + Indent(s)..] == s[Indent(s)..];
  }

  /** `strip()` of a text padded with one space on each side. */
  lemma StripPad(s: string)
    ensures Strip(" " + s + " ") == Strip(s)
  {
    StripPrependSpace(' ', s + " ");
    assert " " + s + " " == [' '] + (s + " ");
    StripAppendSpace(s, ' ');
    assert s + " " == s + [' '];
  }

  lemma {:induction false} StripRStrip(s: string)
    ensures Strip(RStrip(s)) == Strip(s)
  {
    if s != [] && IsSpace(s[|s| - 1]) {
      var init := s[..|s| - 1];
      assert s == init + [s[|s| - 1]];
      StripAppendSpace(init, s[|s| - 1]);
      StripRStrip(init);
    }
  }

  /** Lower-casing only changes letters A to Z. */
  lemma LowerKeeps(s: string, c: char)
    requires c !in s && !('A' <= c <= 'Z') && !('a' <= c <= 'z')
    ensures c !in Lower(s)
  {
  }
}
