/**
 * The Python string operations the data-generation scripts rely on:
 * strip, split on one separator, join, prefix and suffix tests, ASCII
 * upper-casing, single-character replace, decimal and hexadecimal
 * formatting, and `int(s, 16)`.
 */
module Text {
  import opened Wrappers

  /** `c.isspace()` in Python: the Unicode whitespace characters. */
  predicate IsSpace(c: char) {
    || c == ' '
    || ('\t' <= c <= '\r')
    || ('\U{1C}' <= c <= '\U{1F}')
    || c == '\U{85}' || c == '\U{A0}' || c == '\U{1680}'
    || ('\U{2000}' <= c <= '\U{200A}')
    || c == '\U{2028}' || c == '\U{2029}' || c == '\U{202F}' || c == '\U{205F}'
    || c == '\U{3000}'
  }

  /** `s.lstrip()`: drops the leading whitespace and nothing else. */
  function LStrip(s: string): (r: string)
    ensures |r| <= |s| && r == s[|s| - |r|..]
    ensures r == [] || !IsSpace(r[0])
    ensures forall i :: 0 <= i < |s| - |r| ==> IsSpace(s[i])
  {
    if s != [] && IsSpace(s[0]) then LStrip(s[1..]) else s
  }

  /** `s.rstrip()`: drops the trailing whitespace and nothing else. */
  function RStrip(s: string): (r: string)
    ensures |r| <= |s| && r == s[..|r|]
    ensures r == [] || !IsSpace(r[|r| - 1])
    ensures forall i :: |r| <= i < |s| ==> IsSpace(s[i])
  {
    if s != [] && IsSpace(s[|s| - 1]) then RStrip(s[..|s| - 1]) else s
  }

  /** `s.strip()`. */
  function Strip(s: string): (r: string)
    ensures r == [] || (!IsSpace(r[0]) && !IsSpace(r[|r| - 1]))
  {
    RStrip(LStrip(s))
  }

  /** A string with no whitespace at either end is its own strip. */
  lemma StripTrimmed(s: string)
    requires s == [] || (!IsSpace(s[0]) && !IsSpace(s[|s| - 1]))
    ensures Strip(s) == s
  {
  }

  /** Stripping twice is stripping once. */
  lemma StripIdempotent(s: string)
    ensures Strip(Strip(s)) == Strip(s)
  {
    StripTrimmed(Strip(s));
  }

  /** Stripping only removes characters, so one that was absent stays absent. */
  lemma StripKeepsAbsent(s: string, c: char)
    requires c !in s
    ensures c !in Strip(s)
  {
    var l := LStrip(s);
    var k := |s| - |l|;
    var r := RStrip(l);
    assert r == s[k..k + |r|];
    SliceAbsent(s, c, k, k + |r|);
  }

  lemma SliceAbsent(s: string, c: char, i: nat, j: nat)
    requires i <= j <= |s| && c !in s
    ensures c !in s[i..j]
  {
    forall m | 0 <= m < j - i
      ensures s[i..j][m] != c
    {
      assert s[i..j][m] == s[i + m];
    }
  }

  predicate StartsWith(s: string, p: string) {
    |p| <= |s| && s[..|p|] == p
  }

  predicate EndsWith(s: string, p: string) {
    |p| <= |s| && s[|s| - |p|..] == p
  }

  /** Index of the first `c` in `s`, or `|s|` when there is none. */
  function IndexOf(s: string, c: char): (r: nat)
    ensures r <= |s|
    ensures r < |s| ==> s[r] == c
    ensures c !in s[..r]
  {
    if s == [] then 0
    else if s[0] == c then 0
    else
      var k := IndexOf(s[1..], c);
      assert s[..1 + k] == [s[0]] + s[1..][..k];
      1 + k
  }

  /** `s.split(sep)` for a one-character separator: the pieces between the separators. */
  function Split(s: string, sep: char): (r: seq<string>)
    ensures |r| >= 1
    ensures forall i :: 0 <= i < |r| ==> sep !in r[i]
    decreases |s|
  {
    var i := IndexOf(s, sep);
    if i == |s| then [s] else [s[..i]] + Split(s[i + 1..], sep)
  }

  /** `sep.join(parts)`. */
  function Join(sep: string, parts: seq<string>): string
  {
    if parts == [] then ""
    else if |parts| == 1 then parts[0]
    else parts[0] + sep + Join(sep, parts[1..])
  }

  /** Splitting a join on a separator that no part contains gives the parts back. */
  lemma {:induction false} SplitJoin(parts: seq<string>, sep: char)
    requires |parts| >= 1
    requires forall i :: 0 <= i < |parts| ==> sep !in parts[i]
    ensures Split(Join([sep], parts), sep) == parts
  {
    if |parts| == 1 {
      assert parts[0][..IndexOf(parts[0], sep)] == parts[0];
    } else {
      var p := parts[0];
      var rest := Join([sep], parts[1..]);
      var s := p + [sep] + rest;
      assert s == Join([sep], parts);
      IndexOfPrefix(p, sep, rest);
      assert s[..|p|] == p;
      assert s[|p| + 1..] == rest;
      SplitJoin(parts[1..], sep);
    }
  }

  /** A trimmed join splits back into its parts even after stripping. */
  lemma SplitStripJoin(line: string, parts: seq<string>, sep: char)
    requires |parts| >= 1
    requires forall i :: 0 <= i < |parts| ==> sep !in parts[i]
    requires line == Join([sep], parts)
    requires line == [] || (!IsSpace(line[0]) && !IsSpace(line[|line| - 1]))
    ensures Split(Strip(line), sep) == parts
  {
    StripTrimmed(line);
    SplitJoin(parts, sep);
  }

  /** `[piece.strip() for piece in pieces]`. */
  function StripAll(pieces: seq<string>): (r: seq<string>)
    ensures |r| == |pieces|
    ensures forall i :: 0 <= i < |pieces| ==> r[i] == Strip(pieces[i])
  {
    seq(|pieces|, i requires 0 <= i < |pieces| => Strip(pieces[i]))
  }

  /** Trimmed parts joined on a separator none contains come back from split-and-strip unchanged. */
  lemma SplitJoinStripped(parts: seq<string>, sep: char)
    requires |parts| >= 1
    requires forall i :: 0 <= i < |parts| ==> sep !in parts[i] && Strip(parts[i]) == parts[i]
    ensures StripAll(Split(Join([sep], parts), sep)) == parts
  {
    SplitJoin(parts, sep);
    var stripped := StripAll(Split(Join([sep], parts), sep));
    assert forall i :: 0 <= i < |parts| ==> stripped[i] == parts[i];
  }

  /** The first separator of `p + [sep] + rest` is the one after `p` when `p` has none. */
  lemma {:induction false} IndexOfPrefix(p: string, sep: char, rest: string)
    requires sep !in p
    ensures IndexOf(p + [sep] + rest, sep) == |p|
  {
    if p != [] {
      assert (p + [sep] + rest)[1..] == p[1..] + [sep] + rest;
      IndexOfPrefix(p[1..], sep, rest);
    }
  }

  /** A join has at least as many separators as gaps, so one more separator
      inside a part adds one more piece: Split sees every separator. */
  lemma {:induction false} SplitCountsSeparators(s: string, sep: char)
    ensures |Split(s, sep)| == Count(s, sep) + 1
    decreases |s|
  {
    var i := IndexOf(s, sep);
    if i == |s| {
      CountAbsent(s, sep);
    } else {
      assert s == s[..i] + [sep] + s[i + 1..];
      CountAppend(s[..i] + [sep], s[i + 1..], sep);
      CountAppend(s[..i], [sep], sep);
      CountAbsent(s[..i], sep);
      SplitCountsSeparators(s[i + 1..], sep);
    }
  }

  /** Number of occurrences of `c` in `s`. */
  function Count(s: string, c: char): nat
  {
    if s == [] then 0 else (if s[0] == c then 1 else 0) + Count(s[1..], c)
  }

  lemma {:induction false} CountAbsent(s: string, c: char)
    requires c !in s
    ensures Count(s, c) == 0
  {
    if s != [] {
      CountAbsent(s[1..], c);
    }
  }

  lemma {:induction false} CountAppend(a: string, b: string, c: char)
    ensures Count(a + b, c) == Count(a, c) + Count(b, c)
  {
    if a == [] {
      assert a + b == b;
    } else {
      assert (a + b)[1..] == a[1..] + b;
      CountAppend(a[1..], b, c);
    }
  }

  /** Occurrences of `c` across a join: those of the parts plus one per separator. */
  lemma {:induction false} CountJoin(parts: seq<string>, sep: char)
    requires |parts| >= 1
    ensures Count(Join([sep], parts), sep) == SumCounts(parts, sep) + |parts| - 1
  {
    if |parts| > 1 {
      CountAppend(parts[0] + [sep], Join([sep], parts[1..]), sep);
      CountAppend(parts[0], [sep], sep);
      CountJoin(parts[1..], sep);
    }
  }

  function SumCounts(parts: seq<string>, c: char): nat
  {
    if parts == [] then 0 else Count(parts[0], c) + SumCounts(parts[1..], c)
  }

  /** Python's `str.upper()` restricted to ASCII letters. */
  function UpperChar(c: char): (r: char)
    ensures 'a' <= c <= 'z' ==> r as int == c as int - 32
    ensures !('a' <= c <= 'z') ==> r == c
  {
    if 'a' <= c <= 'z' then (c as int - 32) as char else c
  }

  function Upper(s: string): (r: string)
    ensures |r| == |s|
    ensures forall i :: 0 <= i < |s| ==> r[i] == UpperChar(s[i])
  {
    seq(|s|, i requires 0 <= i < |s| => UpperChar(s[i]))
  }

  /** Upper-casing is idempotent, so an upper-cased key stays put when upper-cased again. */
  lemma UpperIdempotent(s: string)
    ensures Upper(Upper(s)) == Upper(s)
  {
  }

  /** `s.replace(c, rep)` for a one-character pattern. */
  function Replace(s: string, c: char, rep: string): (r: string)
    ensures c !in s ==> r == s
  {
    if s == [] then [] else (if s[0] == c then rep else [s[0]]) + Replace(s[1..], c, rep)
  }

  lemma {:induction false} ReplaceAppend(a: string, b: string, c: char, rep: string)
    ensures Replace(a + b, c, rep) == Replace(a, c, rep) + Replace(b, c, rep)
    decreases |a|
  {
    if a == [] {
      assert a + b == b;
    } else {
      assert (a + b)[1..] == a[1..] + b;
      ReplaceAppend(a[1..], b, c, rep);
    }
  }

  // ---------------------------------------------------------------------
  // Decimal and hexadecimal numerals
  // ---------------------------------------------------------------------

  predicate IsDecimalDigit(c: char) {
    '0' <= c <= '9'
  }

  function DigitChar(d: nat): (c: char)
    requires d < 10
    ensures IsDecimalDigit(c) && DigitValue(c) == d
  {
    ('0' as int + d) as char
  }

  /** Python's `str(n)` for a non-negative integer. */
  function NatToString(n: nat): (r: string)
    ensures |r| >= 1
    ensures forall i :: 0 <= i < |r| ==> IsDecimalDigit(r[i])
    ensures DecimalValue(r) == n
  {
    if n < 10 then [DigitChar(n)]
    else
      var r := NatToString(n / 10) + [DigitChar(n % 10)];
      assert r[..|r| - 1] == NatToString(n / 10);
      r
  }

  function DigitValue(c: char): (d: nat)
    requires IsDecimalDigit(c)
    ensures d < 10
  {
    c as int - '0' as int
  }

  /** The value of a string of decimal digits. */
  function DecimalValue(s: string): nat
    requires forall i :: 0 <= i < |s| ==> IsDecimalDigit(s[i])
  {
    if s == [] then 0
    else DecimalValue(s[..|s| - 1]) * 10 + DigitValue(s[|s| - 1])
  }

  /** `f'{n:03d}'` for `n < 1000`: exactly three digits, zero-padded. */
  function Pad3(n: nat): (r: string)
    requires n < 1000
    ensures |r| == 3
    ensures forall i :: 0 <= i < 3 ==> IsDecimalDigit(r[i])
  {
    [DigitChar(n / 100), DigitChar(n / 10 % 10), DigitChar(n % 10)]
  }

  /** The three digits read back as `n`. */
  lemma Pad3Value(n: nat)
    requires n < 1000
    ensures DecimalValue(Pad3(n)) == n
  {
    var r := Pad3(n);
    DecimalThree(r[0], r[1], r[2]);
    assert r == [r[0], r[1], r[2]];
    var h, t, u := n / 100, n / 10 % 10, n % 10;
    assert n == n / 10 * 10 + u;
    assert n / 10 == h * 10 + t;
  }

  lemma DecimalThree(a: char, b: char, c: char)
    requires IsDecimalDigit(a) && IsDecimalDigit(b) && IsDecimalDigit(c)
    ensures DecimalValue([a, b, c]) == (DigitValue(a) * 10 + DigitValue(b)) * 10 + DigitValue(c)
  {
    assert [a][..0] == [];
    assert DecimalValue([a]) == DigitValue(a);
    assert [a, b][..1] == [a];
    assert DecimalValue([a, b]) == DigitValue(a) * 10 + DigitValue(b);
    assert [a, b, c][..2] == [a, b];
  }

  predicate IsHexDigit(c: char) {
    IsDecimalDigit(c) || 'a' <= c <= 'f' || 'A' <= c <= 'F'
  }

  function HexDigitValue(c: char): (d: nat)
    requires IsHexDigit(c)
    ensures d < 16
  {
    if IsDecimalDigit(c) then DigitValue(c)
    else if 'a' <= c <= 'f' then c as int - 'a' as int + 10
    else c as int - 'A' as int + 10
  }

  /** The upper-case digit `format(d, 'X')` writes. */
  function HexDigitChar(d: nat): (c: char)
    requires d < 16
    ensures IsHexDigit(c) && HexDigitValue(c) == d
    ensures IsDecimalDigit(c) || 'A' <= c <= 'F'
  {
    if d < 10 then DigitChar(d) else ('A' as int + d - 10) as char
  }

  /** `format(n, 'X')`: upper-case hexadecimal, no padding, no prefix. */
  function HexString(n: nat): (r: string)
    ensures |r| >= 1
    ensures forall i :: 0 <= i < |r| ==> IsDecimalDigit(r[i]) || 'A' <= r[i] <= 'F'
    ensures HexValue(r) == n
  {
    if n < 16 then [HexDigitChar(n)]
    else
      var r := HexString(n / 16) + [HexDigitChar(n % 16)];
      assert r[..|r| - 1] == HexString(n / 16);
      r
  }

  /** The value of a string of hexadecimal digits. */
  function HexValue(s: string): nat
    requires forall i :: 0 <= i < |s| ==> IsHexDigit(s[i])
  {
    if s == [] then 0 else HexValue(s[..|s| - 1]) * 16 + HexDigitValue(s[|s| - 1])
  }

  /** Digits with single underscores between them, as Python's `int` accepts. */
  predicate WellGrouped(s: string) {
    && |s| > 0 && s[0] != '_' && s[|s| - 1] != '_'
    && (forall i :: 0 <= i < |s| ==> IsHexDigit(s[i]) || s[i] == '_')
    && (forall i :: 0 <= i < |s| - 1 ==> s[i] != '_' || s[i + 1] != '_')
  }

  function DropUnderscores(s: string): (r: string)
    ensures (forall i :: 0 <= i < |s| ==> IsHexDigit(s[i]) || s[i] == '_') ==>
              forall i :: 0 <= i < |r| ==> IsHexDigit(r[i])
    ensures '_' !in s ==> r == s
  {
    if s == [] then [] else (if s[0] == '_' then [] else [s[0]]) + DropUnderscores(s[1..])
  }

  /** The digits after an optional sign and an optional `0x`/`0X` prefix; one
      underscore may follow the prefix. */
  function HexBody(u: string): string
  {
    if |u| >= 2 && u[0] == '0' && (u[1] == 'x' || u[1] == 'X') then
      if |u| >= 3 && u[2] == '_' then u[3..] else u[2..]
    else u
  }

  /** Python's `int(s, 16)`: None where Python raises ValueError. */
  function ParseIntBase16(s: string): (r: Option<int>)
  {
    SignedHex(Strip(s))
  }

  /** `int(t, 16)` of an already stripped `t`. */
  function SignedHex(t: string): (r: Option<int>)
  {
    if |t| > 0 && (t[0] == '+' || t[0] == '-') then
      match UnsignedHex(t[1..])
      case None => None
      case Some(v) => Some(if t[0] == '-' then 0 - v as int else v as int)
    else
      match UnsignedHex(t)
      case None => None
      case Some(v) => Some(v)
  }

  function UnsignedHex(u: string): (r: Option<nat>)
  {
    var body := HexBody(u);
    if WellGrouped(body) then Some(HexValue(DropUnderscores(body))) else None
  }

  /** `int(format(n, 'X'), 16) == n`: the hexadecimal key written for a code point reads back as it. */
  lemma HexRoundTrip(n: nat)
    ensures ParseIntBase16(HexString(n)) == Some(n)
  {
    var h := HexString(n);
    HexStringIsPlain(h);
    StripTrimmed(h);
    assert HexBody(h) == h;
    assert UnsignedHex(h) == Some(HexValue(h));
  }

  /** A string of upper-case hexadecimal digits passes `int(_, 16)` unchanged. */
  lemma HexStringIsPlain(h: string)
    requires |h| >= 1
    requires forall i :: 0 <= i < |h| ==> IsDecimalDigit(h[i]) || 'A' <= h[i] <= 'F'
    ensures !IsSpace(h[0]) && !IsSpace(h[|h| - 1])
    ensures h[0] != '+' && h[0] != '-'
    ensures |h| >= 2 ==> h[1] != 'x' && h[1] != 'X'
    ensures WellGrouped(h)
    ensures DropUnderscores(h) == h
  {
    assert '_' !in h;
  }

  /** A Unicode scalar value: the code points Dafny's `char` can hold. */
  predicate IsScalarValue(n: int) {
    (0 <= n < 0xD800) || (0xE000 <= n < 0x11_0000)
  }

  /** Each character of `t` replaced by `f` of it, left to right. */
  function MapConcat(f: char -> string, t: string): string
    decreases |t|
  {
    if t == [] then [] else MapConcat(f, t[..|t| - 1]) + f(t[|t| - 1])
  }

  lemma {:induction false} MapConcatAppend(f: char -> string, a: string, b: string)
    ensures MapConcat(f, a + b) == MapConcat(f, a) + MapConcat(f, b)
    decreases |b|
  {
    if b == [] {
      assert a + b == a;
    } else {
      var n := |b| - 1;
      assert (a + b)[..|a + b| - 1] == a + b[..n];
      MapConcatAppend(f, a, b[..n]);
    }
  }

  /** A separator inside a part gives the split one extra piece per occurrence. */
  lemma SplitJoinPieces(parts: seq<string>, sep: char)
    requires |parts| >= 1
    ensures |Split(Join([sep], parts), sep)| == SumCounts(parts, sep) + |parts|
  {
    SplitCountsSeparators(Join([sep], parts), sep);
    CountJoin(parts, sep);
  }

  /** `os.path.join(dir, name)` on POSIX paths. */
  function PathJoin(dir: string, name: string): string {
    if StartsWith(name, "/") then name
    else if dir == [] || EndsWith(dir, "/") then dir + name
    else dir + "/" + name
  }

  /** A relative name is appended to the directory, with one `/` between them unless the directory is empty or ends in one. */
  lemma PathJoinRelative(dir: string, name: string)
    requires !StartsWith(name, "/")
    ensures var r := PathJoin(dir, name);
      && StartsWith(r, dir)
      && |r| >= |name| && r[|r| - |name|..] == name
      && (dir == [] ==> r == name)
      && (dir != [] ==> r[|r| - |name| - 1] == '/' && |r| - |name| - 1 <= |dir|)
  {
    var r := PathJoin(dir, name);
    if dir == [] || EndsWith(dir, "/") {
      assert r[..|dir|] == dir;
      assert r[|r| - |name|..] == name;
    } else {
      assert r[..|dir|] == dir;
      assert r[|r| - |name|..] == name;
      assert r[|dir|] == '/';
    }
  }
}
