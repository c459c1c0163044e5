/**
  The two escape codecs: backslashes for quoting, and percent signs for the user part of a URI.
*/
module Escape {
  import opened Words

  // --- backslashes ---

  predicate Special(c: char) {
    c == '\'' || c == '"' || c == '\\' || c == '\0'
  }

  /** The code of one character. */
  function Quote(c: char): (r: string)
    ensures |r| <= 2
  {
    if c == '\0' then "\\0" else if Special(c) then ['\\', c] else [c]
  }

  function Escaped(s: string): (r: string)
    ensures |r| <= 2 * |s|
  {
    if s == "" then "" else Escaped(s[..|s| - 1]) + Quote(s[|s| - 1])
  }

  /** What unescape_common makes of the text from position i on. */
  function Unescaped(s: string, i: nat): string
    requires i <= |s|
    decreases |s| - i
  {
    if i == |s| then ""
    else if s[i] == '\\' && i + 1 < |s| && (s[i + 1] == '0' || (Special(s[i + 1]) && s[i + 1] != '\0')) then
      [if s[i + 1] == '0' then '\0' else s[i + 1]] + Unescaped(s, i + 2)
    else [s[i]] + Unescaped(s, i + 1)
  }

  /** A code in front of any text is read as its character, without touching what follows. */
  lemma ReadsQuote(c: char, rest: string)
    ensures Unescaped(Quote(c) + rest, 0) == [c] + Unescaped(rest, 0)
  {
    var s := Quote(c) + rest;
    Shift(Quote(c), rest, 0);
    assert s[0] == Quote(c)[0];
    if |Quote(c)| == 2 {
      assert s[1] == Quote(c)[1];
    }
  }

  /** Reading depends only on what is left. */
  lemma {:induction false} Shift(a: string, b: string, i: nat)
    requires i <= |b|
    ensures Unescaped(a + b, |a| + i) == Unescaped(b, i)
    decreases |b| - i
  {
    hide Unescaped;
    var s := a + b;
    if i == |b| {
      UnescapedEnd(s);
      UnescapedEnd(b);
    } else {
      UnescapedStep(s, |a| + i);
      UnescapedStep(b, i);
      assert s[|a| + i] == b[i];
      assert i + 1 < |b| ==> s[|a| + i + 1] == b[i + 1];
      Shift(a, b, i + 1);
      if i + 1 < |b| { Shift(a, b, i + 2); }
    }
  }

  lemma {:induction false} EscapedFront(s: string)
    requires s != ""
    ensures Escaped(s) == Quote(s[0]) + Escaped(s[1..])
  {
    hide Quote;
    if |s| > 1 {
      EscapedFront(s[..|s| - 1]);
      assert s[..|s| - 1][1..] == s[1..][..|s| - 2];
    } else {
      assert s[..0] == "" && s[1..] == "";
    }
  }

  /** Unescaping undoes escaping, for every string. */
  lemma {:induction false} UnescapeEscape(s: string)
    ensures Unescaped(Escaped(s), 0) == s
  {
    hide Quote, Unescaped;
    if s == "" {
      UnescapedNothing();
    } else {
      EscapedFront(s);
      ReadsQuote(s[0], Escaped(s[1..]));
      UnescapeEscape(s[1..]);
    }
  }

  lemma UnescapedNothing()
    ensures Unescaped("", 0) == ""
  {
  }

  /** escape_common; dst must have room for twice the source. */
  method EscapeCommon(dst: array<char>, src: string) returns (j: nat)
    requires dst.Length >= 2 * |src|
    modifies dst
    ensures j <= dst.Length && dst[..j] == Escaped(src)
  {
    j := 0;
    assert src[..0] == "";
    for i := 0 to |src|
      invariant j == |Escaped(src[..i])| <= dst.Length && dst[..j] == Escaped(src[..i])
    {
      assert src[..i + 1][..i] == src[..i];
      if src[i] == '\0' {
        dst[j], dst[j + 1] := '\\', '0';
        j := j + 2;
      } else if Special(src[i]) {
        dst[j], dst[j + 1] := '\\', src[i];
        j := j + 2;
      } else {
        dst[j] := src[i];
        j := j + 1;
      }
    }
    assert src[..|src|] == src;
  }

  /** unescape_common. */
  method UnescapeCommon(dst: array<char>, src: string) returns (j: nat)
    requires dst.Length >= |src|
    modifies dst
    ensures j <= |src| && dst[..j] == Unescaped(src, 0)
  {
    hide Unescaped;
    j := 0;
    var i := 0;
    ghost var goal := Unescaped(src, 0);
    while i < |src|
      invariant j <= i <= |src| && dst[..j] + Unescaped(src, i) == goal
      decreases |src| - i
    {
      ghost var was := dst[..j];
      UnescapedStep(src, i);
      var c := src[i];
      if src[i] == '\\' && i + 1 < |src| {
        if src[i + 1] == '\'' || src[i + 1] == '"' || src[i + 1] == '\\' {
          c := src[i + 1];
          i := i + 1;
        } else if src[i + 1] == '0' {
          c := '\0';
          i := i + 1;
        }
      }
      i := i + 1;
      assert goal == was + ([c] + Unescaped(src, i)) == was + [c] + Unescaped(src, i);
      dst[j] := c;
      j := j + 1;
      assert dst[..j] == was + [c];
    }
    UnescapedEnd(src);
  }

  lemma UnescapedStep(s: string, i: nat)
    requires i < |s|
    ensures Unescaped(s, i) ==
      if s[i] == '\\' && i + 1 < |s| && (s[i + 1] == '\'' || s[i + 1] == '"' || s[i + 1] == '\\') then
        [s[i + 1]] + Unescaped(s, i + 2)
      else if s[i] == '\\' && i + 1 < |s| && s[i + 1] == '0' then ['\0'] + Unescaped(s, i + 2)
      else [s[i]] + Unescaped(s, i + 1)
  {
  }

  lemma UnescapedEnd(s: string)
    ensures Unescaped(s, |s|) == ""
  {
  }

  // --- percent signs ---

  predicate Printable(c: char) {
    32 <= c as int <= 126
  }

  /** Characters that escape_user leaves alone. */
  predicate Safe(c: char) {
    '0' <= c <= '9' || 'A' <= c <= 'Z' || 'a' <= c <= 'z' || c in "-_.!~*'()&=+$,;?"
  }

  function HexDigit(d: nat): char
    requires d < 16
  {
    if d < 10 then ('0' as int + d) as char else ('a' as int + d - 10) as char
  }

  function HexValue(c: char): Option<nat> {
    if '0' <= c <= '9' then Some(c as int - '0' as int)
    else if 'a' <= c <= 'f' then Some(c as int - 'a' as int + 10)
    else if 'A' <= c <= 'F' then Some(c as int - 'A' as int + 10)
    else None
  }

  lemma HexRoundTrip(d: nat)
    requires d < 16
    ensures HexValue(HexDigit(d)) == Some(d)
  {
  }

  function Percent(c: char): (r: string)
    requires Printable(c)
    ensures 1 <= |r| <= 3
  {
    if Safe(c) then [c] else ['%', HexDigit(c as int / 16), HexDigit(c as int % 16)]
  }

  /** The escaped user part, or none if a character is not printable. */
  function UserEscaped(s: string): Option<string> {
    if s == "" then Some("")
    else if !Printable(s[|s| - 1]) then None
    else match UserEscaped(s[..|s| - 1])
      case None => None
      case Some(r) => Some(r + Percent(s[|s| - 1]))
  }

  /** The byte after a percent sign at i, if it is the code of a printable character. */
  function Decoded(m: string, i: nat): Option<char>
    requires i + 2 < |m|
  {
    match (HexValue(m[i + 1]), HexValue(m[i + 2]))
    case (Some(h), Some(l)) => if Printable((h * 16 + l) as char) then Some((h * 16 + l) as char) else None
    case _ => None
  }

  /** What unescape_user makes of the n bytes at m, from position i on.  It looks at up to two
      bytes behind them. */
  function UserUnescaped(m: string, n: nat, i: nat): Option<string>
    requires n + 2 <= |m|
    decreases n - i
  {
    if i >= n then Some("")
    else if m[i] == '%' then
      match Decoded(m, i)
      case None => None
      case Some(c) => Cons(c, UserUnescaped(m, n, i + 3))
    else Cons(m[i], UserUnescaped(m, n, i + 1))
  }

  function Cons(c: char, r: Option<string>): Option<string> {
    if r.None? then None else Some([c] + r.value)
  }

  lemma {:induction false} UserEscapedIff(s: string)
    ensures UserEscaped(s).Some? <==> forall i :: 0 <= i < |s| ==> Printable(s[i])
    ensures UserEscaped(s).Some? ==> |s| <= |UserEscaped(s).value| <= 3 * |s|
  {
    hide Printable, Percent;
    if s != "" {
      UserEscapedIff(s[..|s| - 1]);
    }
  }

  lemma {:induction false} UserEscapedFront(s: string)
    requires s != "" && UserEscaped(s).Some?
    ensures Printable(s[0]) && UserEscaped(s[1..]).Some?
    ensures UserEscaped(s).value == Percent(s[0]) + UserEscaped(s[1..]).value
  {
    hide Printable, Percent;
    var init := s[..|s| - 1];
    if |s| > 1 {
      UserEscapedFront(init);
      assert init[1..] == s[1..][..|s| - 2];
    } else {
      assert init == "" && s[1..] == "";
    }
  }

  /** Bytes in front that have been read do not matter. */
  lemma {:induction false} UserShift(a: string, m: string, n: nat, i: nat)
    requires n + 2 <= |m|
    ensures UserUnescaped(a + m, |a| + n, |a| + i) == UserUnescaped(m, n, i)
    decreases n - i
  {
    hide Printable, HexValue;
    if i < n {
      assert (a + m)[|a| + i] == m[i] && (a + m)[|a| + i + 1] == m[i + 1] && (a + m)[|a| + i + 2] == m[i + 2];
      UserShift(a, m, n, i + 1);
      UserShift(a, m, n, i + 3);
    }
  }

  lemma ReadsPercent(c: char, m: string, n: nat)
    requires Printable(c) && n + 2 <= |m|
    ensures UserUnescaped(Percent(c) + m, |Percent(c)| + n, 0) == Cons(c, UserUnescaped(m, n, 0))
  {
    var code := Percent(c);
    var all := code + m;
    UserShift(code, m, n, 0);
    assert all[0] == code[0];
    if !Safe(c) {
      assert all[1] == code[1] && all[2] == code[2];
      HexRoundTrip(c as int / 16);
      HexRoundTrip(c as int % 16);
      assert Decoded(all, 0) == Some(c);
    }
  }

  /** Unescaping undoes escaping, for every string of printable characters, whatever follows
      it in memory. */
  lemma {:induction false} UserRoundTrip(s: string, after: string)
    requires |after| >= 2 && UserEscaped(s).Some?
    ensures var r := UserEscaped(s).value; UserUnescaped(r + after, |r|, 0) == Some(s)
  {
    hide Printable, Percent, UserEscaped;
    if s == "" {
      EscapedNothing();
      assert "" + after == after;
    } else {
      UserEscapedFront(s);
      UserRoundTrip(s[1..], after);
      var r, rest := UserEscaped(s).value, UserEscaped(s[1..]).value;
      ReadsPercent(s[0], rest + after, |rest|);
      assert r + after == Percent(s[0]) + (rest + after);
      assert [s[0]] + s[1..] == s;
    }
  }

  lemma EscapedNothing()
    ensures UserEscaped("") == Some("")
  {
  }

  /** escape_user; refused without room for three times the input and a terminator. */
  method EscapeUser(s: string, out: array<char>) returns (r: int, len: nat)
    modifies out
    ensures r == 0 <==> out.Length >= 3 * |s| + 1 && UserEscaped(s).Some?
    ensures r == 0 ==> len < out.Length && out[len] == '\0' && out[..len] == UserEscaped(s).value
    ensures r == 0 || r == -1
  {
    hide Printable, Safe, HexDigit;
    len := 0;
    if out.Length < 3 * |s| + 1 {
      return -1, 0;
    }
    assert s[..0] == "";
    for i := 0 to |s|
      invariant len <= 3 * i && UserEscaped(s[..i]) == Some(out[..len])
    {
      assert s[..i + 1][..i] == s[..i];
      if !Printable(s[i]) {
        NeverEscaped(s, i);
        return -1, 0;
      }
      ghost var was := out[..len];
      if Safe(s[i]) {
        out[len] := s[i];
        len := len + 1;
      } else {
        PrintableCode(s[i]);
        out[len], out[len + 1], out[len + 2] := '%', HexDigit(s[i] as int / 16), HexDigit(s[i] as int % 16);
        len := len + 3;
      }
      assert out[..len] == was + Percent(s[i]);
    }
    assert s[..|s|] == s;
    out[len] := '\0';
    r := 0;
  }

  lemma PrintableCode(c: char)
    requires Printable(c)
    ensures c as int / 16 < 16
  {
  }

  lemma NeverEscaped(s: string, i: nat)
    requires i < |s| && !Printable(s[i])
    ensures UserEscaped(s).None?
  {
  }

  /** unescape_user on the first n bytes at m. */
  method UnescapeUser(m: string, n: nat, out: array<char>) returns (r: int, len: nat)
    requires n + 2 <= |m|
    modifies out
    ensures r == 0 <==> out.Length >= n + 1 && UserUnescaped(m, n, 0).Some?
    ensures r == 0 ==> len < out.Length && out[len] == '\0' && out[..len] == UserUnescaped(m, n, 0).value
    ensures r == 0 || r == -1
  {
    hide Printable, HexValue;
    len := 0;
    if out.Length < n + 1 {
      return -1, 0;
    }
    ghost var goal := UserUnescaped(m, n, 0);
    var p := 0;
    assert goal.Some? ==> [] + goal.value == goal.value;
    while p < n
      invariant len <= p && len <= n
      invariant goal == Before(out[..len], UserUnescaped(m, n, p))
      decreases n - p
    {
      ghost var was := out[..len];
      var c := m[p];
      if c == '%' {
        var d := Decoded(m, p);
        if d.None? {
          return -1, 0;
        }
        c := d.value;
        BeforeCons(was, c, UserUnescaped(m, n, p + 3));
        p := p + 2;
      } else {
        BeforeCons(was, c, UserUnescaped(m, n, p + 1));
      }
      out[len] := c;
      len := len + 1;
      p := p + 1;
      assert out[..len] == was + [c];
    }
    assert out[..len] + "" == out[..len];
    out[len] := '\0';
    r := 0;
  }

  function Before(a: string, r: Option<string>): Option<string> {
    if r.None? then None else Some(a + r.value)
  }

  lemma BeforeCons(a: string, c: char, r: Option<string>)
    ensures Before(a, Cons(c, r)) == Before(a + [c], r)
  {
    if r.Some? { assert a + ([c] + r.value) == a + [c] + r.value; }
  }
}
