/**
 * Escaping text for Lua short string literals (section 3.1 of the Lua 5.4
 * Reference Manual), as the Lua writers of all three packages do it.
 */
module LuaEscape {
  import opened Wrappers
  import opened Text

  /**
   * The escape chain for the `character` field: line feed, carriage return,
   * tab, double quote and backslash get their two-character escapes, any
   * other code point below 32 a backslash and three decimal digits.
   */
  function EscapeLuaChar(c: char): string {
    if c == '\n' then "\\n"
    else if c == '\r' then "\\r"
    else if c == '\t' then "\\t"
    else if c == '"' then "\\\""
    else if c == '\\' then "\\\\"
    else if (c as int) < 32 then "\\" + Pad3(c as int)
    else [c]
  }

  /** Every character escaped with `EscapeLuaChar`: the reference for `escape_lua_string`. */
  function EscapeAll(s: string): string
    decreases |s|
  {
    if s == [] then [] else EscapeLuaChar(s[0]) + EscapeAll(s[1..])
  }

  /** The five `replace` calls of `escape_lua_string`, backslashes first. */
  function ReplaceChain(s: string): string {
    Replace(Replace(Replace(Replace(Replace(s, '\\', "\\\\"), '"', "\\\""), '\n', "\\n"), '\r', "\\r"), '\t', "\\t")
  }

  /** The body of the final loop: a remaining control character becomes `\ddd`. */
  function ControlEscape(c: char): string {
    if (c as int) < 32 && c != '\n' && c != '\r' && c != '\t' then "\\" + Pad3(c as int) else [c]
  }

  function ControlEscapeAll(t: string): string {
    MapConcat(ControlEscape, t)
  }

  /** `escape_lua_string`: the replaces, then the `result +=` loop; it escapes each character as the `character` field does. */
  method EscapeLuaString(s: string) returns (result: string)
    ensures result == EscapeAll(s)
  {
    var t := ReplaceChain(s);
    result := "";
    var i := 0;
    while i < |t|
      invariant 0 <= i <= |t|
      invariant result == ControlEscapeAll(t[..i])
    {
      assert t[..i + 1][..i] == t[..i];
      result := result + ControlEscape(t[i]);
      i := i + 1;
    }
    assert t[..i] == t;
    ChainThenControl(s);
  }

  lemma ChainAppend(a: string, b: string)
    ensures ReplaceChain(a + b) == ReplaceChain(a) + ReplaceChain(b)
  {
    var a1, b1 := Replace(a, '\\', "\\\\"), Replace(b, '\\', "\\\\");
    ReplaceAppend(a, b, '\\', "\\\\");
    var a2, b2 := Replace(a1, '"', "\\\""), Replace(b1, '"', "\\\"");
    ReplaceAppend(a1, b1, '"', "\\\"");
    var a3, b3 := Replace(a2, '\n', "\\n"), Replace(b2, '\n', "\\n");
    ReplaceAppend(a2, b2, '\n', "\\n");
    var a4, b4 := Replace(a3, '\r', "\\r"), Replace(b3, '\r', "\\r");
    ReplaceAppend(a3, b3, '\r', "\\r");
    ReplaceAppend(a4, b4, '\t', "\\t");
  }

  lemma ControlAppend(a: string, b: string)
    ensures ControlEscapeAll(a + b) == ControlEscapeAll(a) + ControlEscapeAll(b)
  {
    MapConcatAppend(ControlEscape, a, b);
  }

  /** The loop leaves text without control characters as it is. */
  lemma {:induction false} ControlPlain(t: string)
    requires forall i :: 0 <= i < |t| ==> t[i] as int >= 32
    ensures ControlEscapeAll(t) == t
    decreases |t|
  {
    if t != [] {
      var n := |t| - 1;
      ControlPlain(t[..n]);
      assert t[..n] + [t[n]] == t;
    }
  }

  /** On one character the replaces and the loop give the `character` field's escape. */
  lemma ChainOneChar(c: char)
    ensures ControlEscapeAll(ReplaceChain([c])) == EscapeLuaChar(c)
  {
    if c == '\\' || c == '"' || c == '\n' || c == '\r' || c == '\t' {
      var e := EscapeLuaChar(c);
      var r1 := Replace([c], '\\', "\\\\");
      var r2 := Replace(r1, '"', "\\\"");
      var r3 := Replace(r2, '\n', "\\n");
      var r4 := Replace(r3, '\r', "\\r");
      var r5 := Replace(r4, '\t', "\\t");
      if c == '\\' {
        assert r1 == e;
      } else {
        assert r1 == [c];
      }
      if c == '"' {
        assert r2 == e;
      } else {
        assert r2 == r1;
      }
      if c == '\n' {
        assert r3 == e;
      } else {
        assert r3 == r2;
      }
      if c == '\r' {
        assert r4 == e;
      } else {
        assert r4 == r3;
      }
      if c == '\t' {
        assert r5 == e;
      } else {
        assert r5 == r4;
      }
      ControlPlain(e);
    } else {
      assert ReplaceChain([c]) == [c];
      assert ControlEscapeAll([c]) == ControlEscapeAll([]) + ControlEscape(c);
    }
  }

  lemma {:induction false} ChainThenControl(s: string)
    ensures ControlEscapeAll(ReplaceChain(s)) == EscapeAll(s)
    decreases |s|
  {
    if s != [] {
      assert s == [s[0]] + s[1..];
      ChainAppend([s[0]], s[1..]);
      ControlAppend(ReplaceChain([s[0]]), ReplaceChain(s[1..]));
      ChainOneChar(s[0]);
      ChainThenControl(s[1..]);
    }
  }

  /** No escaped text holds a character below 32, so none can break the literal. */
  lemma {:induction false} NoControlCharacters(s: string)
    ensures forall i :: 0 <= i < |EscapeAll(s)| ==> EscapeAll(s)[i] as int >= 32
    decreases |s|
  {
    if s != [] {
      NoControlCharacters(s[1..]);
      var e := EscapeLuaChar(s[0]);
      assert forall i :: 0 <= i < |e| ==> e[i] as int >= 32;
      assert EscapeAll(s) == e + EscapeAll(s[1..]);
    }
  }

  // ---------------------------------------------------------------------
  // Reading a literal back
  // ---------------------------------------------------------------------

  function Prepend(c: char, rest: Option<string>): Option<string> {
    if rest.None? then None else Some([c] + rest.value)
  }

  /** How many decimal digits, at most `max`, `s` starts with. */
  function DigitRun(s: string, max: nat): (r: nat)
    ensures r <= max && r <= |s|
    ensures forall i :: 0 <= i < r ==> IsDecimalDigit(s[i])
  {
    if max == 0 || s == [] || !IsDecimalDigit(s[0]) then 0 else 1 + DigitRun(s[1..], max - 1)
  }

  /**
   * The value of the body of a short literal, for the escapes used here:
   * `\n`, `\r`, `\t`, `\\`, `\"`, `\'` and `\ddd` (up to three digits, at
   * most 255). An unescaped quote or line break, a lone backslash and any
   * other escape give `None`.
   */
  function LuaUnescape(s: string): Option<string>
    decreases |s|
  {
    if s == [] then Some([])
    else if s[0] == '\n' || s[0] == '\r' || s[0] == '"' then None
    else if s[0] != '\\' then Prepend(s[0], LuaUnescape(s[1..]))
    else if |s| == 1 then None
    else
      var e := s[1];
      if e == 'n' then Prepend('\n', LuaUnescape(s[2..]))
      else if e == 'r' then Prepend('\r', LuaUnescape(s[2..]))
      else if e == 't' then Prepend('\t', LuaUnescape(s[2..]))
      else if e == '\\' || e == '"' || e == '\'' then Prepend(e, LuaUnescape(s[2..]))
      else if IsDecimalDigit(e) then
        var k := DigitRun(s[1..], 3);
        var v := DecimalValue(s[1..1 + k]);
        if v > 255 then None else Prepend(v as char, LuaUnescape(s[1 + k..]))
      else None
  }

  lemma DigitRunPad3(p: string, rest: string)
    requires |p| == 3 && forall i :: 0 <= i < 3 ==> IsDecimalDigit(p[i])
    ensures DigitRun(p + rest, 3) == 3
  {
    var q := p + rest;
    assert q[0] == p[0] && q[1..][0] == p[1] && q[1..][1..][0] == p[2];
    assert DigitRun(q[1..][1..], 1) == 1;
    assert DigitRun(q[1..], 2) == 2;
  }

  /** Reading back one escaped character consumes exactly its escape. */
  lemma UnescapeOne(c: char, rest: string)
    ensures LuaUnescape(EscapeLuaChar(c) + rest) == Prepend(c, LuaUnescape(rest))
  {
    var s := EscapeLuaChar(c) + rest;
    if c == '\n' || c == '\r' || c == '\t' || c == '"' || c == '\\' {
      assert s[2..] == rest;
    } else if (c as int) < 32 {
      var p := Pad3(c as int);
      assert s[1..] == p + rest;
      DigitRunPad3(p, rest);
      Pad3Value(c as int);
      assert s[1..4] == p;
      assert s[4..] == rest;
    } else {
      assert s[1..] == rest;
    }
  }

  /** Lua reads `escape_lua_string`'s output back as the original text. */
  lemma {:induction false} UnescapeEscapeAll(s: string)
    ensures LuaUnescape(EscapeAll(s)) == Some(s)
    decreases |s|
  {
    if s != [] {
      UnescapeEscapeAll(s[1..]);
      UnescapeOne(s[0], EscapeAll(s[1..]));
      assert [s[0]] + s[1..] == s;
    }
  }

  /** The `character` field on its own reads back as that character. */
  lemma UnescapeChar(c: char)
    ensures LuaUnescape(EscapeLuaChar(c)) == Some([c])
  {
    assert EscapeLuaChar(c) + [] == EscapeLuaChar(c);
    UnescapeOne(c, []);
    assert LuaUnescape([]) == Some([]);
    assert [c] + [] == [c];
  }

  // ---------------------------------------------------------------------
  // Quote-only escaping
  // ---------------------------------------------------------------------

  /** `s.replace('"', '\\"')`, the escaping unifill-datafetch applies to names and aliases. */
  function QuoteEscape(s: string): string {
    Replace(s, '"', "\\\"")
  }

  /** Reading back one quote-escaped character other than a backslash or a line break. */
  lemma UnescapeQuoted(c: char, rest: string)
    requires c != '\\' && c != '\n' && c != '\r'
    ensures LuaUnescape((if c == '"' then "\\\"" else [c]) + rest) == Prepend(c, LuaUnescape(rest))
  {
    var t := (if c == '"' then "\\\"" else [c]) + rest;
    if c == '"' {
      assert t[0] == '\\' && t[1] == '"' && t[2..] == rest;
    } else {
      assert t[0] == c && t[1..] == rest;
    }
  }

  /** Quote-only escaping reads back correctly for text without backslashes and line breaks. */
  lemma {:induction false} QuoteEscapeRoundTrip(s: string)
    requires '\\' !in s && '\n' !in s && '\r' !in s
    ensures LuaUnescape(QuoteEscape(s)) == Some(s)
    decreases |s|
  {
    if s != [] {
      QuoteEscapeRoundTrip(s[1..]);
      assert QuoteEscape(s) == (if s[0] == '"' then "\\\"" else [s[0]]) + QuoteEscape(s[1..]);
      UnescapeQuoted(s[0], QuoteEscape(s[1..]));
      assert [s[0]] + s[1..] == s;
    }
  }

  /** A backslash is not escaped: the two characters `\n` come back as a line feed. */
  lemma QuoteEscapeBackslash()
    ensures QuoteEscape("\\n") == "\\n"
    ensures LuaUnescape(QuoteEscape("\\n")) == Some("\n")
    ensures LuaUnescape(EscapeAll("\\n")) == Some("\\n")
  {
    var s := "\\n";
    assert '"' !in s;
    assert s[0] == '\\' && s[1] == 'n' && s[2..] == [];
    assert LuaUnescape(s[2..]) == Some([]);
    assert ['\n'] + [] == "\n";
    UnescapeEscapeAll(s);
  }
}
