/**
  What a framed message is, stated on its text alone, and the proof that the scanner
  recognises exactly that.  All predicates look at a text from its last character
  backwards, so that each says how one more character changes it.
*/
module TcpGrammar {
  import opened Words
  import opened Decimal
  import opened TcpScan

  function Init(m: string): string
    requires m != ""
  {
    m[..|m| - 1]
  }

  function Last(m: string): char
    requires m != ""
  {
    m[|m| - 1]
  }

  /** A line feed and then blanks only. */
  predicate AfterLf(m: string) {
    m != "" && (Last(m) == '\n' || (IsWs(Last(m)) && AfterLf(Init(m))))
  }

  /** A place where a header name can start: the message's beginning, or a line's. */
  predicate LineStart(m: string) {
    m == "" || AfterLf(m)
  }

  /** The first k characters of "Content-Length", at a line start. */
  predicate NamePart(m: string, k: nat)
    requires k <= 14
    decreases k
  {
    if k == 0 then LineStart(m)
    else m != "" && Matches(Last(m), k - 1) && NamePart(Init(m), k - 1)
  }

  /** A complete Content-Length header name, long or short, and blanks. */
  predicate ColonWait(m: string) {
    m != "" &&
    (NamePart(m, 14) || (IsL(Last(m)) && LineStart(Init(m))) || (IsWs(Last(m)) && ColonWait(Init(m))))
  }

  /** Name, colon, blanks. */
  predicate ValueWait(m: string) {
    m != "" && ((Last(m) == ':' && ColonWait(Init(m))) || (IsWs(Last(m)) && ValueWait(Init(m))))
  }

  /** Name, colon, blanks, digits. */
  predicate DigitTail(m: string) {
    m != "" && IsDigit(Last(m)) && (ValueWait(Init(m)) || DigitTail(Init(m)))
  }

  function DigitVal(m: string): nat
    requires DigitTail(m)
  {
    (if ValueWait(Init(m)) then 0 else DigitVal(Init(m)) * 10) + DigitValue(Last(m))
  }

  /** m[..j] ends in a Content-Length header value and m[j] closes it. */
  predicate ClenEnd(m: string, j: nat) {
    j < |m| && DigitTail(m[..j]) && IsBlank(m[j])
  }

  /** The first Content-Length value in `m`, modulo 2^32, is v. */
  predicate FirstClen(m: string, v: u32) {
    exists j: nat :: j < |m| && ClenEnd(m, j) && v == Wrap(DigitVal(m[..j]))
                     && forall i: nat :: i < j ==> !ClenEnd(m, i)
  }

  predicate NoClen(m: string) {
    forall j: nat :: j < |m| ==> !ClenEnd(m, j)
  }

  predicate EndsLfCr(m: string) {
    |m| >= 2 && m[|m| - 2] == '\n' && m[|m| - 1] == '\r'
  }

  /** The text ends in a blank line: LF LF or LF CR LF. */
  predicate Terminated(m: string) {
    |m| >= 2 && Last(m) == '\n' && (m[|m| - 2] == '\n' || EndsLfCr(Init(m)))
  }

  /** No blank line yet. */
  predicate Unterminated(m: string) {
    forall h: nat :: h <= |m| ==> !Terminated(m[..h])
  }

  /** A header block: ends in its first blank line. */
  predicate HeaderBlock(h: string) {
    Terminated(h) && forall i: nat :: i < |h| ==> !Terminated(h[..i])
  }

  /** A message as section 18.3 of RFC 3261 frames it on a stream: a header block whose
      first Content-Length is the number of bytes that follow. */
  predicate Framed(m: string) {
    exists h: nat :: h <= |m| && FramedAt(m, h)
  }

  predicate FramedAt(m: string, h: nat)
    requires h <= |m|
  {
    && m != "" && !IsBlank(m[0])
    && HeaderBlock(m[..h])
    && |m| - h < 0x1_0000_0000 && FirstClen(m[..h], |m| - h)
  }

  // --- the scanner's state is a function of the text ---

  /** While no Content-Length was found, the state names what the text ends in. */
  predicate Patterns(m: string, s: Scan)
    requires m != ""
  {
    && (s.state.StartWs? <==> AfterLf(m) && Last(m) != '\n')
    && (forall k :: 1 <= k <= 13 ==> (s.state == ContLen(k) <==> NamePart(m, k)))
    && (s.state.LColon? <==> ColonWait(m))
    && (s.state.LenWait? <==> ValueWait(m))
    && (s.state.LenDigits? <==> DigitTail(m))
    && (s.state.LenDigits? ==> s.contentLen == Wrap(DigitVal(m)))
  }

  predicate Tracks(m: string, s: Scan) {
    && m != "" && !IsBlank(m[0])
    && Running(s) && !s.state.SkipEmpty? && !s.state.Body?
    && (s.state.Lf? <==> Last(m) == '\n')
    && (s.state.LfCr? <==> EndsLfCr(m))
    && Unterminated(m)
    && (s.hasClen ==> (s.state.Lf? || s.state.LfCr? || s.state.Skip?) && FirstClen(m, s.contentLen))
    && (!s.hasClen ==> NoClen(m) && Patterns(m, s))
  }

  lemma Snoc(m: string, c: char)
    ensures var m' := m + [c]; m' != "" && Init(m') == m && Last(m') == c
  {
  }

  lemma ClenExtend(m: string, c: char)
    ensures forall j: nat :: j < |m| ==> (ClenEnd(m + [c], j) <==> ClenEnd(m, j))
    ensures ClenEnd(m + [c], |m|) <==> DigitTail(m) && IsBlank(c)
  {
    var m' := m + [c];
    forall j: nat | j < |m|
      ensures ClenEnd(m', j) <==> ClenEnd(m, j)
    {
      assert m'[..j] == m[..j];
    }
    assert m'[..|m|] == m;
  }

  lemma NoClenExtend(m: string, c: char)
    requires NoClen(m)
    ensures !(DigitTail(m) && IsBlank(c)) ==> NoClen(m + [c])
    ensures DigitTail(m) && IsBlank(c) ==> FirstClen(m + [c], Wrap(DigitVal(m)))
  {
    ClenExtend(m, c);
    var m' := m + [c];
    if DigitTail(m) && IsBlank(c) {
      assert m'[..|m|] == m;
      assert ClenEnd(m', |m|);
    }
  }

  lemma FirstClenExtend(m: string, c: char, v: u32)
    requires FirstClen(m, v)
    ensures FirstClen(m + [c], v)
  {
    ClenExtend(m, c);
    var j: nat :| j < |m| && ClenEnd(m, j) && v == Wrap(DigitVal(m[..j])) && forall i: nat :: i < j ==> !ClenEnd(m, i);
    assert (m + [c])[..j] == m[..j];
    assert ClenEnd(m + [c], j);
  }

  lemma UnterminatedExtend(m: string, c: char)
    requires Unterminated(m)
    ensures Unterminated(m + [c]) <==> !Terminated(m + [c])
    ensures Terminated(m + [c]) ==> HeaderBlock(m + [c])
  {
    var m' := m + [c];
    assert m'[..|m'|] == m';
    forall h: nat | h <= |m|
      ensures !Terminated(m'[..h])
    {
      assert m'[..h] == m[..h];
    }
  }

  /** The blank line is seen exactly in the two states that wait for it. */
  lemma TerminatedNext(m: string, c: char, s: Scan)
    requires Tracks(m, s)
    ensures Terminated(m + [c]) <==> c == '\n' && (s.state.Lf? || s.state.LfCr?)
    ensures EndsLfCr(m + [c]) <==> c == '\r' && s.state.Lf?
  {
  }

  /** One character of a header line, no length found yet. */
  lemma PatternStep(m: string, s: Scan, c: char, at: nat)
    requires Tracks(m, s) && !s.hasClen && !Terminated(m + [c])
    ensures var r := Step(s, c, at); !r.hasClen ==> Patterns(m + [c], r)
  {
    hide LineStart, Matches, Unterminated, Terminated, NoClen, FirstClen, EndsLfCr;
    Snoc(m, c);
    TerminatedNext(m, c, s);
    var m' := m + [c];
    var r := Step(s, c, at);
    if !r.hasClen {
      StartStep(m, s, c);
      NameStep(m, s, c, at);
      ValueStep(m, s, c, at);
    }
  }

  lemma StartStep(m: string, s: Scan, c: char)
    requires Tracks(m, s) && !s.hasClen
    ensures LineStart(m) <==> s.state.Lf? || s.state.StartWs?
    ensures AfterLf(m + [c]) <==> c == '\n' || (IsWs(c) && (s.state.Lf? || s.state.StartWs?))
  {
  }

  lemma NameStep(m: string, s: Scan, c: char, at: nat)
    requires Tracks(m, s) && !s.hasClen && !Terminated(m + [c])
    ensures var r := Step(s, c, at);
      && (forall k :: 1 <= k <= 13 ==> (r.state == ContLen(k) <==> NamePart(m + [c], k)))
      && (r.state.LColon? <==> ColonWait(m + [c]))
  {
    Snoc(m, c);
    StartStep(m, s, c);
    TerminatedNext(m, c, s);
    var m' := m + [c];
    var r := Step(s, c, at);
    forall k | 1 <= k <= 13
      ensures r.state == ContLen(k) <==> NamePart(m', k)
    {
      assert NamePart(m', k) <==> Matches(c, k - 1) && NamePart(m, k - 1);
      if k == 1 {
        assert Matches(c, 0) <==> IsC(c);
        assert NamePart(m, 0) <==> s.state.Lf? || s.state.StartWs?;
      } else {
        assert NamePart(m, k - 1) <==> s.state == ContLen(k - 1);
      }
    }
    assert NamePart(m', 14) <==> Matches(c, 13) && s.state == ContLen(13);
    assert ColonWait(m') <==>
      NamePart(m', 14) || (IsL(c) && LineStart(m)) || (IsWs(c) && s.state.LColon?);
    assert !Matches('\n', 13) && !IsL('\n');
  }

  lemma ValueStep(m: string, s: Scan, c: char, at: nat)
    requires Tracks(m, s) && !s.hasClen && !Terminated(m + [c])
    ensures var r := Step(s, c, at);
      && (r.state.LenWait? <==> ValueWait(m + [c]))
      && (r.state.LenDigits? <==> DigitTail(m + [c]))
      && (r.state.LenDigits? ==> r.contentLen == Wrap(DigitVal(m + [c])))
  {
    Snoc(m, c);
    TerminatedNext(m, c, s);
    var m' := m + [c];
    assert ValueWait(m') <==> (c == ':' && s.state.LColon?) || (IsWs(c) && s.state.LenWait?);
    assert DigitTail(m') <==> IsDigit(c) && (s.state.LenWait? || s.state.LenDigits?);
    if IsDigit(c) && s.state.LenDigits? {
      assert !ValueWait(m);
      WrapTimesTen(DigitVal(m), DigitValue(c));
    }
  }

  lemma WrapTimesTen(v: nat, d: nat)
    requires d < 10
    ensures Wrap(Wrap(v) * 10 + d) == Wrap(v * 10 + d)
  {
    var q := v / 0x1_0000_0000;
    assert v == q * 0x1_0000_0000 + Wrap(v);
    assert v * 10 + d == Wrap(v) * 10 + d + (10 * q) * 0x1_0000_0000;
    WrapShift(Wrap(v) * 10 + d, 10 * q);
  }

  /** The first character of a message. */
  lemma FirstTracks(s: Scan, c: char, at: nat)
    requires Running(s) && s.state.SkipEmpty? && !s.hasClen && !IsBlank(c)
    ensures Tracks([c], Step(s, c, at))
  {
  }

  /** One character inside the headers: the scanner still tracks the text, or the text is a
      header block and the scanner knows its first Content-Length, or that it has none. */
  lemma StepTracks(m: string, s: Scan, c: char, at: nat)
    requires Tracks(m, s)
    ensures !Terminated(m + [c]) ==> Tracks(m + [c], Step(s, c, at))
    ensures Terminated(m + [c]) ==>
              && HeaderBlock(m + [c]) && Step(s, c, at) == EndHeaders(s, at)
              && (s.hasClen ==> FirstClen(m + [c], s.contentLen))
              && (!s.hasClen ==> NoClen(m + [c]))
  {
    hide ClenEnd, NamePart, ColonWait, ValueWait, FirstClen, NoClen, Unterminated, HeaderBlock;
    Snoc(m, c);
    TerminatedNext(m, c, s);
    UnterminatedExtend(m, c);
    if s.hasClen {
      FirstClenExtend(m, c, s.contentLen);
    } else {
      NoClenExtend(m, c);
      if !Terminated(m + [c]) { PatternStep(m, s, c, at); }
    }
  }
}
