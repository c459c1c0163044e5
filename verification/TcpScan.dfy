/**
  The header scanner of the TCP reader, one byte at a time: a resumable state machine that
  finds the end of the headers and the Content-Length of each message in a stream.
*/
module TcpScan {
  import opened Words
  import opened Decimal

  const TCP_BUF_SIZE: nat := 65535
  const UPPER: string := "CONTENT-LENGTH"
  const LOWER: string := "content_length"

  /** H_SKIP_EMPTY .. H_CONT_LEN_BODY_PARSE; ContLen(k) is H_CONT_LENk. */
  datatype State =
    | SkipEmpty | Skip | Lf | LfCr | Body | StartWs | ContLen(k: nat) | LColon | LenWait | LenDigits

  /** The scanner fields of a tcp_req: `start` and `body` are offsets into its buffer. */
  datatype Scan = Scan(state: State, contentLen: u32, hasClen: bool, toGo: u32, complete: bool, bad: bool,
      start: nat, body: nat)

  const INIT: Scan := Scan(SkipEmpty, 0, false, 0, false, false, 0, 0)

  predicate IsWs(c: char) {
    c == ' ' || c == '\t'
  }

  predicate IsBlank(c: char) {
    IsWs(c) || c == '\r' || c == '\n'
  }

  predicate IsC(c: char) {
    c == 'C' || c == 'c'
  }

  predicate IsL(c: char) {
    c == 'L' || c == 'l'
  }

  predicate Matches(c: char, k: nat)
    requires k < 14
  {
    c == UPPER[k] || c == LOWER[k]
  }

  function LfOrSkip(s: Scan, c: char): Scan {
    if c == '\n' then s.(state := Lf) else s.(state := Skip)
  }

  /** Common beginning of a header line: only looked at until a Content-Length was found. */
  function LineBegin(s: Scan, c: char): Scan
    requires IsWs(c) || IsC(c) || IsL(c)
  {
    if s.hasClen then s.(state := Skip)
    else if IsWs(c) then s.(state := StartWs)
    else if IsC(c) then s.(state := ContLen(1))
    else s.(state := LColon)
  }

  /** The blank line: the body follows, or the message is refused for want of a length. */
  function EndHeaders(s: Scan, at: nat): Scan {
    if s.hasClen then
      s.(state := Body, body := at + 1, toGo := s.contentLen, complete := s.contentLen == 0)
    else s.(state := Body, bad := true)
  }

  /** States the scanner can be in between bytes. */
  predicate Running(s: Scan) {
    && !s.complete && !s.bad
    && (s.state.Body? ==> s.toGo > 0)
    && (s.state.ContLen? ==> 1 <= s.state.k <= 13)
  }

  /** One byte `c`, at buffer offset `at`. */
  function Step(s: Scan, c: char, at: nat): (r: Scan)
    requires Running(s)
    ensures !r.complete && !r.bad ==> Running(r)
  {
    match s.state
    case SkipEmpty =>
      if IsBlank(c) then s
      else if IsC(c) then s.(state := ContLen(1), start := at)
      else if IsL(c) then s.(state := LColon, start := at)
      else s.(state := Skip, start := at)
    case Skip => if c == '\n' then s.(state := Lf) else s
    case Lf =>
      if c == '\r' then s.(state := LfCr)
      else if c == '\n' then EndHeaders(s, at)
      else if IsWs(c) || IsC(c) || IsL(c) then LineBegin(s, c)
      else s.(state := Skip)
    case LfCr => if c == '\n' then EndHeaders(s, at) else s.(state := Skip)
    case Body => s.(toGo := s.toGo - 1, complete := s.toGo == 1)
    case StartWs => if IsWs(c) || IsC(c) || IsL(c) then LineBegin(s, c) else LfOrSkip(s, c)
    case ContLen(k) =>
      if Matches(c, k) then s.(state := if k == 13 then LColon else ContLen(k + 1)) else LfOrSkip(s, c)
    case LColon =>
      if IsWs(c) then s
      else if c == ':' then s.(state := LenWait)
      else LfOrSkip(s, c)
    case LenWait =>
      if IsWs(c) then s
      else if IsDigit(c) then s.(state := LenDigits, contentLen := DigitValue(c))
      else LfOrSkip(s, c)
    case LenDigits =>
      if IsDigit(c) then s.(contentLen := Wrap(s.contentLen * 10 + DigitValue(c)))
      else if c == '\r' || IsWs(c) then s.(state := Skip, hasClen := true)
      else if c == '\n' then s.(state := Lf, hasClen := true)
      else s.(state := Skip)
  }

  /** Scanning stops at the end of a message, at an error, or when the bytes run out. */
  function ScanRun(s: Scan, at: nat, text: string): (r: (Scan, nat))
    requires s.complete || s.bad || Running(s)
    ensures r.1 <= |text|
    ensures r.0.complete || r.0.bad || (Running(r.0) && r.1 == |text|)
    ensures !s.complete && !s.bad && (r.0.complete || r.0.bad) ==> r.1 > 0
    decreases |text|
  {
    if text == "" || s.complete || s.bad then (s, 0)
    else
      var (r, n) := ScanRun(Step(s, text[0], at), at + 1, text[1..]);
      (r, n + 1)
  }

  /** What is left of a run after its first `n` bytes. */
  predicate RunsTo(s: Scan, at: nat, text: string, s': Scan, n: nat)
    requires (s.complete || s.bad || Running(s)) && (s'.complete || s'.bad || Running(s')) && n <= |text|
  {
    ScanRun(s, at, text) == (ScanRun(s', at + n, text[n..]).0, n + ScanRun(s', at + n, text[n..]).1)
  }

  /** The body is skipped in one step (H_BODY). */
  lemma {:induction false} BodyBulk(s: Scan, at: nat, text: string, n: nat)
    requires Running(s) && s.state.Body? && n <= |text| && n <= s.toGo
    ensures var s' := s.(toGo := s.toGo - n, complete := s.toGo == n);
      (s'.complete || Running(s')) && RunsTo(s, at, text, s', n)
    decreases n
  {
    if n == 0 {
      assert text[0..] == text;
    } else {
      var t := Step(s, text[0], at);
      if n > 1 {
        BodyBulk(t, at + 1, text[1..], n - 1);
      } else {
        assert text[1..][0..] == text[1..];
      }
      assert text[1..][n - 1..] == text[n..];
    }
  }

  /** The rest of an uninteresting line is skipped in one step (H_SKIP). */
  lemma {:induction false} SkipBulk(s: Scan, at: nat, text: string, n: nat)
    requires Running(s) && s.state.Skip? && n <= |text| && '\n' !in text[..n]
    ensures RunsTo(s, at, text, s, n)
    ensures n < |text| && text[n] == '\n' ==> RunsTo(s, at, text, s.(state := Lf), n + 1)
    decreases n
  {
    if n == 0 {
      assert text[0..] == text;
    } else {
      assert text[0] == text[..n][0];
      assert text[..n][1..] == text[1..][..n - 1];
      SkipBulk(s, at + 1, text[1..], n - 1);
      assert text[1..][n - 1..] == text[n..];
      if n < |text| { assert text[1..][n..] == text[n + 1..]; }
    }
  }

  lemma StepOnce(s: Scan, at: nat, text: string)
    requires Running(s) && text != ""
    ensures RunsTo(s, at, text, Step(s, text[0], at), 1)
  {
  }

  lemma RunsFurther(s: Scan, at: nat, text: string, s1: Scan, n1: nat, s2: Scan, n2: nat)
    requires (s.complete || s.bad || Running(s)) && (s1.complete || s1.bad || Running(s1))
        && (s2.complete || s2.bad || Running(s2))
    requires n1 + n2 <= |text|
    requires RunsTo(s, at, text, s1, n1) && RunsTo(s1, at + n1, text[n1..], s2, n2)
    ensures RunsTo(s, at, text, s2, n1 + n2)
  {
  }

  lemma RunsStart(s: Scan, at: nat, text: string)
    requires s.complete || s.bad || Running(s)
    ensures RunsTo(s, at, text, s, 0)
  {
  }

  lemma RunsDone(s: Scan, at: nat, text: string, s': Scan, n: nat)
    requires (s.complete || s.bad || Running(s)) && (s'.complete || s'.bad || Running(s')) && n <= |text|
    requires RunsTo(s, at, text, s', n) && (s'.complete || s'.bad || n == |text|)
    ensures ScanRun(s, at, text) == (s', n)
  {
  }
}
