/**
  Framing of a byte stream into messages, one byte at a time: the reference that the
  buffered reader is compared with.
*/
module TcpFramer {
  import opened Words
  import opened TcpScan
  import opened TcpGrammar

  /** A message handed to receive_msg and the blank bytes dropped in front of it. */
  datatype Delivery = Delivery(lead: string, msg: string)

  /** Open, or closed for an overrun, a missing Content-Length or a failed receive_msg. */
  datatype Status = Open | Overrun | NoLength | Rejected

  /** `frame` holds the bytes read since the last delivery. */
  datatype Conn = Conn(frame: string, scan: Scan, delivered: seq<Delivery>, status: Status)

  /** receive_msg: may depend on everything received before. */
  type Receiver = (seq<Delivery>, string) -> bool

  const FRESH: Conn := Conn("", INIT, [], Open)

  /** A complete message is handed over and the frame starts afresh. */
  function Deliver(rcv: Receiver, delivered: seq<Delivery>, frame: string, start: nat): Conn
    requires start <= |frame|
  {
    var msg := frame[start..];
    Conn("", INIT, delivered + [Delivery(frame[..start], msg)], if rcv(delivered, msg) then Open else Rejected)
  }

  predicate AllBlank(s: string) {
    forall i :: 0 <= i < |s| ==> IsBlank(s[i])
  }

  /** The frame matches the scanner's fields. */
  predicate InFrame(frame: string, s: Scan) {
    && Running(s) && s.start <= |frame| && AllBlank(frame[..s.start])
    && (s.state.SkipEmpty? ==> s == INIT && AllBlank(frame))
    && (s.state.Body? ==>
          && s.start < s.body <= |frame| && s.hasClen && !IsBlank(frame[s.start])
          && HeaderBlock(frame[s.start..s.body]) && FirstClen(frame[s.start..s.body], s.contentLen)
          && |frame| - s.body + s.toGo == s.contentLen)
    && (!s.state.SkipEmpty? && !s.state.Body? ==> Tracks(frame[s.start..], s))
  }

  /** What every connection keeps. */
  predicate Good(c: Conn) {
    && |c.frame| <= TCP_BUF_SIZE
    && (forall i :: 0 <= i < |c.delivered| ==> AllBlank(c.delivered[i].lead) && Framed(c.delivered[i].msg))
    && match c.status
       case Open => InFrame(c.frame, c.scan)
       case Overrun => |c.frame| == TCP_BUF_SIZE && InFrame(c.frame, c.scan)
       case NoLength =>
         && c.scan.start <= |c.frame| && AllBlank(c.frame[..c.scan.start])
         && HeaderBlock(c.frame[c.scan.start..]) && NoClen(c.frame[c.scan.start..])
       case Rejected => c.frame == ""
  }

  /** The three outcomes of one byte, on frame and scanner. */
  predicate StepOk(frame: string, r: Scan) {
    && r.start <= |frame| && AllBlank(frame[..r.start])
    && (r.bad ==> HeaderBlock(frame[r.start..]) && NoClen(frame[r.start..]))
    && (r.complete ==> Framed(frame[r.start..]))
    && (!r.bad && !r.complete ==> InFrame(frame, r))
  }

  lemma FeedBlank(frame: string, s: Scan, b: char)
    requires InFrame(frame, s) && s.state.SkipEmpty?
    ensures StepOk(frame + [b], Step(s, b, |frame|))
  {
    var f := frame + [b];
    if !IsBlank(b) {
      FirstTracks(s, b, |frame|);
      assert f[|frame|..] == [b];
      assert f[..|frame|] == frame;
    }
  }

  lemma FeedHeader(frame: string, s: Scan, b: char)
    requires InFrame(frame, s) && !s.state.SkipEmpty? && !s.state.Body?
    ensures StepOk(frame + [b], Step(s, b, |frame|))
  {
    hide HeaderBlock, FirstClen, NoClen, Terminated;
    var f, m := frame + [b], frame[s.start..];
    var r := Step(s, b, |frame|);
    StepTracks(m, s, b, |frame|);
    assert f[s.start..] == m + [b];
    assert f[..s.start] == frame[..s.start];
    HeaderStart(s, b, |frame|);
    if Terminated(m + [b]) {
      assert f[s.start] == m[0];
      if s.hasClen {
        assert f[s.start..|f|] == m + [b];
        if s.contentLen == 0 {
          assert (m + [b])[..|m + [b]|] == m + [b];
          assert FramedAt(m + [b], |m + [b]|);
        }
      }
    } else {
      assert Tracks(m + [b], r);
    }
  }

  lemma HeaderStart(s: Scan, b: char, at: nat)
    requires Running(s) && !s.state.SkipEmpty? && !s.state.Body?
    ensures Step(s, b, at).start == s.start
  {
  }

  lemma FeedBody(frame: string, s: Scan, b: char)
    requires InFrame(frame, s) && s.state.Body?
    ensures StepOk(frame + [b], Step(s, b, |frame|))
  {
    hide HeaderBlock, FirstClen;
    var f := frame + [b];
    assert f[..s.start] == frame[..s.start];
    assert f[s.start..s.body] == frame[s.start..s.body];
    assert f[s.start] == frame[s.start];
    if s.toGo == 1 {
      var m, h := f[s.start..], s.body - s.start;
      assert m[..h] == f[s.start..s.body];
      assert FramedAt(m, h);
    }
  }

  lemma StepGood(frame: string, s: Scan, b: char)
    requires InFrame(frame, s)
    ensures StepOk(frame + [b], Step(s, b, |frame|))
  {
    match s.state
    case SkipEmpty => FeedBlank(frame, s, b);
    case Body => FeedBody(frame, s, b);
    case _ => FeedHeader(frame, s, b);
  }

  /** One byte. The invariant is kept, and only framed messages are delivered. */
  function Feed(rcv: Receiver, c: Conn, b: char): (r: Conn)
    requires Good(c)
    ensures Good(r)
    ensures r.status.Overrun? <==> c.status.Overrun? || FullAt(c)
    ensures !c.status.Open? ==> r == c
  {
    if !c.status.Open? then c
    else if |c.frame| == TCP_BUF_SIZE then c.(status := Overrun)
    else
      StepGood(c.frame, c.scan, b);
      var frame := c.frame + [b];
      var s := Step(c.scan, b, |c.frame|);
      if s.bad then Conn(frame, s, c.delivered, NoLength)
      else if s.complete then Deliver(rcv, c.delivered, frame, s.start)
      else Conn(frame, s, c.delivered, Open)
  }

  predicate FullAt(c: Conn) {
    c.status.Open? && |c.frame| == TCP_BUF_SIZE
  }

  function FeedAll(rcv: Receiver, c: Conn, text: string): (r: Conn)
    requires Good(c)
    ensures Good(r)
    decreases |text|
  {
    if text == "" then c
    else FeedAll(rcv, Feed(rcv, c, text[0]), text[1..])
  }

  /** Where the stream is cut does not matter to the reference. */
  lemma {:induction false} FeedAppend(rcv: Receiver, c: Conn, a: string, b: string)
    requires Good(c)
    ensures FeedAll(rcv, c, a + b) == FeedAll(rcv, FeedAll(rcv, c, a), b)
    decreases |a|
  {
    hide Good, Feed;
    if a == "" {
      assert a + b == b;
    } else {
      assert (a + b)[0] == a[0] && (a + b)[1..] == a[1..] + b;
      FeedAppend(rcv, Feed(rcv, c, a[0]), a[1..], b);
    }
  }

  lemma {:induction false} ClosedIgnores(rcv: Receiver, c: Conn, text: string)
    requires Good(c) && !c.status.Open?
    ensures FeedAll(rcv, c, text) == c
    decreases |text|
  {
    if text != "" { ClosedIgnores(rcv, c, text[1..]); }
  }

  // --- no byte is lost or invented ---

  function Flat(ds: seq<Delivery>): string {
    if ds == [] then "" else Flat(ds[..|ds| - 1]) + ds[|ds| - 1].lead + ds[|ds| - 1].msg
  }

  /** All bytes the connection has taken in. */
  function Taken(c: Conn): string {
    Flat(c.delivered) + c.frame
  }

  lemma FeedTakes(rcv: Receiver, c: Conn, b: char)
    requires Good(c)
    ensures Taken(Feed(rcv, c, b)) == if c.status.Open? && |c.frame| < TCP_BUF_SIZE then Taken(c) + [b] else Taken(c)
  {
    hide Framed, InFrame, Step, StepOk;
    if c.status.Open? && |c.frame| < TCP_BUF_SIZE {
      StartInFrame(c.frame, c.scan, b);
      var s, frame := Step(c.scan, b, |c.frame|), c.frame + [b];
      if s.complete && !s.bad {
        var d := Delivery(frame[..s.start], frame[s.start..]);
        var ds := c.delivered + [d];
        assert ds[..|ds| - 1] == c.delivered;
        assert Flat(c.delivered) + d.lead + d.msg == Flat(c.delivered) + frame;
      }
      assert Flat(c.delivered) + frame == Flat(c.delivered) + c.frame + [b];
    }
  }

  lemma StartInFrame(frame: string, s: Scan, b: char)
    requires InFrame(frame, s)
    ensures Running(s) && Step(s, b, |frame|).start <= |frame| + 1
  {
  }

  /** Skipped blanks, delivered messages and the bytes still held are the stream so far: all
      of it while the connection is open, a prefix once it is closed. */
  lemma {:induction false} BytesConserved(rcv: Receiver, c: Conn, text: string)
    requires Good(c)
    ensures var r := FeedAll(rcv, c, text);
      exists n: nat :: n <= |text| && Taken(r) == Taken(c) + text[..n] && (r.status.Open? ==> n == |text|)
    decreases |text|
  {
    hide Good, Feed;
    if text == "" || !c.status.Open? {
      if !c.status.Open? { ClosedIgnores(rcv, c, text); }
      assert Taken(c) == Taken(c) + text[..0];
    } else {
      FeedTakes(rcv, c, text[0]);
      var c' := Feed(rcv, c, text[0]);
      BytesConserved(rcv, c', text[1..]);
      var r := FeedAll(rcv, c, text);
      var n: nat :| n <= |text[1..]| && Taken(r) == Taken(c') + text[1..][..n] && (r.status.Open? ==> n == |text[1..]|);
      ConservedStep(rcv, c, text, r, n);
    }
  }

  lemma ConservedStep(rcv: Receiver, c: Conn, text: string, r: Conn, n: nat)
    requires Good(c) && c.status.Open? && text != "" && n <= |text[1..]|
    requires Taken(r) == Taken(Feed(rcv, c, text[0])) + text[1..][..n] && (r.status.Open? ==> n == |text[1..]|)
    requires r == FeedAll(rcv, c, text)
    ensures exists n: nat :: n <= |text| && Taken(r) == Taken(c) + text[..n] && (r.status.Open? ==> n == |text|)
  {
    hide Taken, Good, Feed;
    FeedTakes(rcv, c, text[0]);
    var c' := Feed(rcv, c, text[0]);
    if |c.frame| != TCP_BUF_SIZE {
      assert |c.frame| < TCP_BUF_SIZE by { GoodSize(c); }
      assert Taken(c) + [text[0]] + text[1..][..n] == Taken(c) + text[..n + 1];
    } else {
      ClosedIgnores(rcv, c', text[1..]);
      assert Taken(r) == Taken(c) + text[..0];
    }
  }

  lemma GoodSize(c: Conn)
    requires Good(c)
    ensures |c.frame| <= TCP_BUF_SIZE
  {
  }

  /** An overrun is reported exactly when a frame fills the buffer without completing and
      another byte is there. */
  lemma {:induction false} OverrunExactly(rcv: Receiver, c: Conn, text: string)
    requires Good(c) && c.status.Open?
    ensures FeedAll(rcv, c, text).status.Overrun? <==>
              exists k: nat :: k < |text| && Reaches(rcv, c, text, k)
    decreases |text|
  {
    hide Good, Feed;
    if text != "" {
      var c' := Feed(rcv, c, text[0]);
      forall k: nat
        ensures Reaches(rcv, c, text, k + 1) <==> Reaches(rcv, c', text[1..], k)
      {
        if k < |text[1..]| {
          assert text[..k + 1][0] == text[0] && text[..k + 1][1..] == text[1..][..k];
        }
      }
      assert Reaches(rcv, c, text, 0) <==> FullAt(c);
      if c'.status.Open? {
        OverrunExactly(rcv, c', text[1..]);
        if k: nat :| Reaches(rcv, c, text, k) { assert Reaches(rcv, c', text[1..], k - 1); }
        if k: nat :| Reaches(rcv, c', text[1..], k) { assert Reaches(rcv, c, text, k + 1); }
      } else {
        ClosedIgnores(rcv, c', text[1..]);
        forall k: nat | k > 0
          ensures !Reaches(rcv, c, text, k)
        {
          if k - 1 < |text[1..]| { ClosedIgnores(rcv, c', text[1..][..k - 1]); }
          assert Reaches(rcv, c, text, (k - 1) + 1) <==> Reaches(rcv, c', text[1..], k - 1);
        }
      }
    }
  }

  /** The first k bytes leave the frame full and the connection open. */
  predicate Reaches(rcv: Receiver, c: Conn, text: string, k: nat)
    requires Good(c)
  {
    k < |text| && FullAt(FeedAll(rcv, c, text[..k]))
  }

  // --- every well-framed stream is taken apart as it was put together ---

  /** Blank bytes before a message are held back. */
  lemma {:induction false} FeedLead(rcv: Receiver, ds: seq<Delivery>, lead: string, frame: string)
    requires Good(Conn(frame, INIT, ds, Open)) && AllBlank(lead) && |frame| + |lead| <= TCP_BUF_SIZE
    ensures FeedAll(rcv, Conn(frame, INIT, ds, Open), lead) == Conn(frame + lead, INIT, ds, Open)
    decreases |lead|
  {
    var c := Conn(frame, INIT, ds, Open);
    if lead == "" {
      assert frame + lead == frame;
    } else {
      assert Feed(rcv, c, lead[0]) == Conn(frame + [lead[0]], INIT, ds, Open);
      assert frame + lead == frame + [lead[0]] + lead[1..];
      FeedLead(rcv, ds, lead[1..], frame + [lead[0]]);
    }
  }

  lemma FreshGood(rcv: Receiver)
    ensures Good(FRESH) && Flat([]) == "" && FeedAll(rcv, FRESH, "") == FRESH
  {
  }

  /** One more header byte that does not end the headers. */
  lemma FeedTracked(rcv: Receiver, c: Conn, m: string, b: char)
    requires Good(c) && c.status.Open? && |c.frame| < TCP_BUF_SIZE && Tracks(m, c.scan) && !Terminated(m + [b])
    ensures var r := FeedAll(rcv, c, [b]);
      && r.frame == c.frame + [b] && r.delivered == c.delivered && r.status.Open?
      && r.scan.start == c.scan.start && Tracks(m + [b], r.scan)
  {
    hide Patterns, FirstClen, NoClen, Framed, Unterminated, Terminated;
    assert [b][1..] == "";
    assert FeedAll(rcv, c, [b]) == FeedAll(rcv, Feed(rcv, c, b), "");
    StepTracks(m, c.scan, b, |c.frame|);
    HeaderStart(c.scan, b, |c.frame|);
  }

  lemma FeedFirst(rcv: Receiver, ds: seq<Delivery>, lead: string, b: char)
    requires Good(Conn(lead, INIT, ds, Open)) && |lead| < TCP_BUF_SIZE && !IsBlank(b)
    ensures var r := FeedAll(rcv, Conn(lead, INIT, ds, Open), [b]);
      && r.frame == lead + [b] && r.delivered == ds && r.status.Open?
      && r.scan.start == |lead| && Tracks([b], r.scan)
  {
  }

  /** Up to its first blank line a message is scanned without being delivered. */
  lemma {:induction false} FeedHeaders(rcv: Receiver, ds: seq<Delivery>, lead: string, h: string, n: nat)
    requires Good(Conn(lead, INIT, ds, Open)) && AllBlank(lead) && |lead| + |h| <= TCP_BUF_SIZE
    requires h != "" && !IsBlank(h[0]) && HeaderBlock(h) && 1 <= n < |h|
    ensures var c := FeedAll(rcv, Conn(lead, INIT, ds, Open), h[..n]);
      && c.frame == lead + h[..n] && c.delivered == ds && c.status.Open?
      && c.scan.start == |lead| && Tracks(h[..n], c.scan)
    decreases n
  {
    hide Tracks, Good, Feed, FeedAll;
    var c0 := Conn(lead, INIT, ds, Open);
    if n == 1 {
      assert h[..1] == [h[0]];
      FeedFirst(rcv, ds, lead, h[0]);
    } else {
      FeedHeaders(rcv, ds, lead, h, n - 1);
      var m, b := h[..n - 1], h[n - 1];
      assert h[..n] == m + [b];
      FeedAppend(rcv, c0, m, [b]);
      FeedTracked(rcv, FeedAll(rcv, c0, m), m, b);
      assert lead + m + [b] == lead + (m + [b]);
    }
  }

  /** The body is taken byte by byte until it is complete. */
  lemma {:induction false} FeedBodyAll(rcv: Receiver, c: Conn, text: string)
    requires Good(c) && c.status.Open? && c.scan.state.Body?
    requires 0 < |text| == c.scan.toGo && |c.frame| + |text| <= TCP_BUF_SIZE
    ensures FeedAll(rcv, c, text) == Deliver(rcv, c.delivered, c.frame + text, c.scan.start)
    decreases |text|
  {
    hide Framed, HeaderBlock, FirstClen;
    var c' := Feed(rcv, c, text[0]);
    assert c.frame + text == c.frame + [text[0]] + text[1..];
    if |text| == 1 {
      assert text[1..] == "" && c.frame + text == c.frame + [text[0]];
    } else {
      FeedBodyAll(rcv, c', text[1..]);
    }
  }

  lemma FirstClenUnique(m: string, v: u32, v': u32)
    requires FirstClen(m, v) && FirstClen(m, v')
    ensures v == v'
  {
  }

  lemma FirstClenSome(m: string, v: u32)
    requires FirstClen(m, v)
    ensures !NoClen(m)
  {
  }

  /** The blank line of a message with a length: the scanner knows the length. */
  lemma FeedBlankLine(rcv: Receiver, c: Conn, m: string, b: char, v: u32)
    requires Good(c) && c.status.Open? && |c.frame| < TCP_BUF_SIZE && Tracks(m, c.scan)
    requires HeaderBlock(m + [b]) && FirstClen(m + [b], v)
    ensures v == 0 ==>
              && c.scan.start <= |c.frame + [b]|
              && Feed(rcv, c, b) == Deliver(rcv, c.delivered, c.frame + [b], c.scan.start)
    ensures v > 0 ==>
      var r := Feed(rcv, c, b);
      && r.frame == c.frame + [b] && r.delivered == c.delivered && r.status.Open?
      && r.scan.state.Body? && r.scan.toGo == v && r.scan.start == c.scan.start
  {
    hide Patterns, FirstClen, NoClen, Terminated, Unterminated;
    StepTracks(m, c.scan, b, |c.frame|);
    if c.scan.hasClen {
      FirstClenUnique(m + [b], v, c.scan.contentLen);
    } else {
      FirstClenSome(m + [b], v);
    }
  }

  /** A message framed as the standard asks is delivered whole, whatever blanks precede it. */
  lemma FeedFramed(rcv: Receiver, ds: seq<Delivery>, lead: string, m: string)
    requires Good(Conn("", INIT, ds, Open)) && AllBlank(lead) && Framed(m) && |lead| + |m| <= TCP_BUF_SIZE
    ensures FeedAll(rcv, Conn("", INIT, ds, Open), lead + m) == Deliver(rcv, ds, lead + m, |lead|)
  {
    hide Good, Feed, FeedAll, FramedAt, Deliver, AllBlank;
    FeedLead(rcv, ds, lead, "");
    assert "" + lead == lead;
    FeedAppend(rcv, Conn("", INIT, ds, Open), lead, m);
    var h: nat :| h <= |m| && FramedAt(m, h);
    HeadersThenBody(rcv, ds, lead, m, h);
  }

  lemma HeadersThenBody(rcv: Receiver, ds: seq<Delivery>, lead: string, m: string, h: nat)
    requires Good(Conn(lead, INIT, ds, Open)) && AllBlank(lead) && |lead| + |m| <= TCP_BUF_SIZE
    requires h <= |m| && FramedAt(m, h)
    ensures FeedAll(rcv, Conn(lead, INIT, ds, Open), m) == Deliver(rcv, ds, lead + m, |lead|)
  {
    hide Good, Feed, FeedAll, FirstClen, Tracks, HeaderBlock, AllBlank, Deliver;
    assert h >= 2 by { BlockLength(m[..h]); }
    var hd, b, body := m[..h - 1], m[h - 1], m[h..];
    assert m[..h] == hd + [b] && m[..h][..h - 1] == hd;
    FeedHeaders(rcv, ds, lead, m[..h], h - 1);
    var c1 := Conn(lead, INIT, ds, Open);
    assert m == hd + ([b] + body);
    FeedAppend(rcv, c1, hd, [b] + body);
    AfterBlankLine(rcv, FeedAll(rcv, c1, hd), hd, b, body);
    assert lead + hd + ([b] + body) == lead + m;
  }

  /** From the blank line on: the body, and delivery. */
  lemma AfterBlankLine(rcv: Receiver, c: Conn, hd: string, b: char, body: string)
    requires Good(c) && c.status.Open? && Tracks(hd, c.scan) && c.scan.start <= |c.frame|
    requires |c.frame| + 1 + |body| <= TCP_BUF_SIZE
    requires HeaderBlock(hd + [b]) && |body| < 0x1_0000_0000 && FirstClen(hd + [b], |body|)
    ensures FeedAll(rcv, c, [b] + body) == Deliver(rcv, c.delivered, c.frame + ([b] + body), c.scan.start)
  {
    hide Good, Feed, FirstClen, Tracks, HeaderBlock, Deliver;
    FeedBlankLine(rcv, c, hd, b, |body|);
    assert ([b] + body)[0] == b && ([b] + body)[1..] == body;
    assert c.frame + ([b] + body) == c.frame + [b] + body;
    if body == "" {
      assert c.frame + [b] + body == c.frame + [b];
    } else {
      FeedBodyAll(rcv, Feed(rcv, c, b), body);
    }
  }

  lemma BlockLength(h: string)
    requires HeaderBlock(h)
    ensures |h| >= 2
  {
  }

  /** Messages that fit the buffer and that receive_msg accepts. */
  predicate Sendable(rcv: Receiver, ds: seq<Delivery>) {
    forall i :: 0 <= i < |ds| ==>
      && AllBlank(ds[i].lead) && Framed(ds[i].msg) && |ds[i].lead| + |ds[i].msg| <= TCP_BUF_SIZE
      && rcv(ds[..i], ds[i].msg)
  }

  /** Framing undoes concatenation: a stream made of framed messages, with any blanks between
      them, comes out as exactly those messages. */
  lemma {:induction false} StreamRoundTrip(rcv: Receiver, ds: seq<Delivery>)
    requires Sendable(rcv, ds)
    ensures FeedAll(rcv, FRESH, Flat(ds)) == Conn("", INIT, ds, Open)
    decreases |ds|
  {
    hide Framed, FeedAll, AllBlank, Good, Flat, Sendable;
    FreshGood(rcv);
    if ds != [] {
      var ds', d := ds[..|ds| - 1], ds[|ds| - 1];
      SendablePrefix(rcv, ds);
      StreamRoundTrip(rcv, ds');
      assert ds' + [d] == ds;
      FlatSnoc(ds', d);
      FeedAppend(rcv, FRESH, Flat(ds'), d.lead + d.msg);
      RoundTripOne(rcv, ds', d);
    }
  }

  lemma RoundTripOne(rcv: Receiver, ds: seq<Delivery>, d: Delivery)
    requires Good(Conn("", INIT, ds, Open)) && AllBlank(d.lead) && Framed(d.msg)
    requires |d.lead| + |d.msg| <= TCP_BUF_SIZE && rcv(ds, d.msg)
    ensures FeedAll(rcv, Conn("", INIT, ds, Open), d.lead + d.msg) == Conn("", INIT, ds + [d], Open)
  {
    hide Framed, FeedAll, AllBlank, Good;
    FeedFramed(rcv, ds, d.lead, d.msg);
    assert (d.lead + d.msg)[|d.lead|..] == d.msg && (d.lead + d.msg)[..|d.lead|] == d.lead;
  }

  lemma SendablePrefix(rcv: Receiver, ds: seq<Delivery>)
    requires Sendable(rcv, ds) && ds != []
    ensures Sendable(rcv, ds[..|ds| - 1])
    ensures var d := ds[|ds| - 1];
      && AllBlank(d.lead) && Framed(d.msg) && |d.lead| + |d.msg| <= TCP_BUF_SIZE && rcv(ds[..|ds| - 1], d.msg)
  {
    hide Framed, AllBlank;
    var ds' := ds[..|ds| - 1];
    assert forall i :: 0 <= i < |ds'| ==> ds'[i] == ds[i] && ds'[..i] == ds[..i];
  }

  lemma FlatSnoc(ds: seq<Delivery>, d: Delivery)
    ensures Flat(ds + [d]) == Flat(ds) + (d.lead + d.msg)
  {
  }

  // --- overruns in terms of the stream ---

  /** A header block is there, and fewer bytes behind it than its Content-Length says. */
  predicate ShortBody(m: string) {
    exists h: nat, v: u32 :: h <= |m| && ShortAt(m, h, v)
  }

  predicate ShortAt(m: string, h: nat, v: u32)
    requires h <= |m|
  {
    HeaderBlock(m[..h]) && FirstClen(m[..h], v) && |m| - h < v
  }

  /** Blanks only, or blanks and the start of a message that is not complete. */
  predicate Incomplete(x: string) {
    AllBlank(x) || exists k: nat :: k < |x| && IncompleteAt(x, k)
  }

  predicate IncompleteAt(x: string, k: nat)
    requires k < |x|
  {
    AllBlank(x[..k]) && !IsBlank(x[k]) && (Unterminated(x[k..]) || ShortBody(x[k..]))
  }

  lemma FrameIncomplete(frame: string, s: Scan)
    requires InFrame(frame, s)
    ensures Incomplete(frame)
  {
    hide AllBlank, HeaderBlock, FirstClen, Unterminated;
    if s.state.Body? {
      var m, h := frame[s.start..], s.body - s.start;
      assert m[..h] == frame[s.start..s.body];
      assert ShortAt(m, h, s.contentLen);
      assert IncompleteAt(frame, s.start);
    } else if !s.state.SkipEmpty? {
      assert frame[s.start..][0] == frame[s.start];
      assert IncompleteAt(frame, s.start);
    }
  }

  /** The first blank line of a text is where it is in every longer text. */
  lemma BlockUnique(m: string, h: nat, h': nat)
    requires h <= |m| && h' <= |m| && HeaderBlock(m[..h]) && HeaderBlock(m[..h'])
    ensures h == h'
  {
    hide Terminated;
    assert h <= h' ==> m[..h'][..h] == m[..h];
    assert h' <= h ==> m[..h][..h'] == m[..h'];
  }

  lemma IncompleteNotFramed(m: string, n: nat, h: nat)
    requires n <= |m| && h <= n && (Unterminated(m) || ShortBody(m))
    ensures !FramedAt(m[..n], h)
  {
    hide Terminated, FirstClen;
    assert m[..n][..h] == m[..h];
    if ShortBody(m) {
      var h0: nat, v: u32 :| h0 <= |m| && ShortAt(m, h0, v);
      if HeaderBlock(m[..h]) { BlockUnique(m, h, h0); }
      if n - h < 0x1_0000_0000 && FirstClen(m[..h], n - h) && FirstClen(m[..h], v) {
        FirstClenUnique(m[..h], n - h, v);
      }
    }
  }

  lemma IncompleteHasLength(m: string, n: nat)
    requires n <= |m| && (Unterminated(m) || ShortBody(m))
    ensures !(HeaderBlock(m[..n]) && NoClen(m[..n]))
  {
    hide Terminated, FirstClen, NoClen;
    if ShortBody(m) {
      var h0: nat, v: u32 :| h0 <= |m| && ShortAt(m, h0, v);
      FirstClenSome(m[..h0], v);
      if HeaderBlock(m[..n]) { BlockUnique(m, n, h0); }
    }
  }

  /** Another byte of an incomplete text neither completes a message nor ends a header block
      without a length. */
  lemma IncompleteGoesOn(x: string, n: nat, s: Scan)
    requires Incomplete(x) && n < |x| && InFrame(x[..n], s)
    ensures var r := Step(s, x[n], n); !r.bad && !r.complete
  {
    hide Step, HeaderBlock, FirstClen, NoClen, Unterminated, Tracks, Framed, ShortBody;
    var r := Step(s, x[n], n);
    assert x[..n] + [x[n]] == x[..n + 1];
    StepGood(x[..n], s, x[n]);
    if r.bad || r.complete {
      StartsAt(x, n, s);
      var k: nat :| k < |x| && IncompleteAt(x, k);
      FirstNonBlank(x, k, r.start);
      var m, l := x[k..], n + 1 - k;
      assert x[..n + 1][k..] == m[..l];
      IncompleteHasLength(m, l);
      forall h: nat | h <= l
        ensures !FramedAt(m[..l], h)
      {
        IncompleteNotFramed(m, l, h);
      }
      NotFramed(m[..l]);
    }
  }

  lemma NotFramed(m: string)
    requires forall h: nat | h <= |m| :: !FramedAt(m, h)
    ensures !Framed(m)
  {
  }

  /** A step that completes a message or finds no length is in a message. */
  lemma StartsAt(x: string, n: nat, s: Scan)
    requires n < |x| && InFrame(x[..n], s)
    ensures var r := Step(s, x[n], n);
      r.bad || r.complete ==> r.start <= n && !IsBlank(x[r.start]) && AllBlank(x[..r.start])
  {
    hide Tracks, HeaderBlock, FirstClen;
    if !s.state.SkipEmpty? {
      assert x[..n][..s.start] == x[..s.start];
      if !s.state.Body? {
        TracksStart(x[..n][s.start..], s);
        HeaderStart(s, x[n], n);
      }
    }
  }

  lemma TracksStart(m: string, s: Scan)
    requires Tracks(m, s)
    ensures m != "" && !IsBlank(m[0])
  {
  }

  lemma FirstNonBlank(x: string, a: nat, b: nat)
    requires a < |x| && b < |x| && AllBlank(x[..a]) && AllBlank(x[..b]) && !IsBlank(x[a]) && !IsBlank(x[b])
    ensures a == b
  {
  }

  lemma FeedKeepsSendable(rcv: Receiver, c: Conn, b: char)
    requires Good(c) && Sendable(rcv, c.delivered)
    ensures var r := Feed(rcv, c, b); r.status.Open? ==> Sendable(rcv, r.delivered)
  {
    hide Framed, AllBlank, Step, InFrame, Sendable;
    if c.status.Open? && |c.frame| < TCP_BUF_SIZE {
      StartInFrame(c.frame, c.scan, b);
      StepGood(c.frame, c.scan, b);
      var frame, s := c.frame + [b], Step(c.scan, b, |c.frame|);
      if s.complete && !s.bad {
        var d := Delivery(frame[..s.start], frame[s.start..]);
        if rcv(c.delivered, d.msg) { SendableSnoc(rcv, c.delivered, d); }
      }
    }
  }

  lemma SendableSnoc(rcv: Receiver, ds: seq<Delivery>, d: Delivery)
    requires Sendable(rcv, ds) && AllBlank(d.lead) && Framed(d.msg)
    requires |d.lead| + |d.msg| <= TCP_BUF_SIZE && rcv(ds, d.msg)
    ensures Sendable(rcv, ds + [d])
  {
    hide Framed, AllBlank;
    var all := ds + [d];
    assert all[..|ds|] == ds;
    assert forall i :: 0 <= i < |ds| ==> all[i] == ds[i] && all[..i] == ds[..i];
  }

  lemma {:induction false} DeliveredSendable(rcv: Receiver, c: Conn, text: string)
    requires Good(c) && c.status.Open? && Sendable(rcv, c.delivered)
    ensures var r := FeedAll(rcv, c, text); r.status.Open? ==> Sendable(rcv, r.delivered)
    decreases |text|
  {
    hide Good, Feed, Sendable;
    if text != "" {
      var c' := Feed(rcv, c, text[0]);
      FeedKeepsSendable(rcv, c, text[0]);
      if c'.status.Open? {
        DeliveredSendable(rcv, c', text[1..]);
      } else {
        ClosedIgnores(rcv, c', text[1..]);
      }
    }
  }

  /** Accepted messages, then an incomplete one that the buffer can hold. */
  predicate Splits(rcv: Receiver, text: string, ds: seq<Delivery>, x: string) {
    Sendable(rcv, ds) && Incomplete(x) && |x| <= TCP_BUF_SIZE && text == Flat(ds) + x
  }

  lemma {:induction false} FeedIncomplete(rcv: Receiver, ds: seq<Delivery>, x: string, n: nat)
    requires Good(Conn("", INIT, ds, Open)) && Incomplete(x) && |x| <= TCP_BUF_SIZE && n <= |x|
    ensures var r := FeedAll(rcv, Conn("", INIT, ds, Open), x[..n]);
      r.status.Open? && r.delivered == ds && r.frame == x[..n]
  {
    hide Good, Feed, Incomplete;
    var c0 := Conn("", INIT, ds, Open);
    if n > 0 {
      FeedIncomplete(rcv, ds, x, n - 1);
      var c := FeedAll(rcv, c0, x[..n - 1]);
      assert x[..n] == x[..n - 1] + [x[n - 1]];
      FeedAppend(rcv, c0, x[..n - 1], [x[n - 1]]);
      IncompleteByte(rcv, c, x);
    }
  }

  lemma IncompleteByte(rcv: Receiver, c: Conn, x: string)
    requires Good(c) && c.status.Open? && Incomplete(x) && |x| <= TCP_BUF_SIZE
    requires |c.frame| < |x| && c.frame == x[..|c.frame|]
    ensures var r := Feed(rcv, c, x[|c.frame|]);
      FeedAll(rcv, c, [x[|c.frame|]]) == r && r.status.Open? && r.delivered == c.delivered
          && r.frame == x[..|c.frame| + 1]
  {
    hide Incomplete, InFrame, Step, StepOk;
    IncompleteGoesOn(x, |c.frame|, c.scan);
  }

  /** While the connection is open, what came in is the messages handed over and the start of
      the next one, and there is no other way to take the stream apart. */
  lemma OpenExactly(rcv: Receiver, text: string, ds: seq<Delivery>, x: string)
    ensures Good(FRESH)
    ensures Splits(rcv, text, ds, x) <==>
              var r := FeedAll(rcv, FRESH, text); r.status.Open? && r.delivered == ds && r.frame == x
  {
    hide Good, Feed, FeedAll, Incomplete, Sendable;
    FreshGood(rcv);
    if Splits(rcv, text, ds, x) {
      StreamRoundTrip(rcv, ds);
      FeedAppend(rcv, FRESH, Flat(ds), x);
      assert x[..|x|] == x;
      FeedIncomplete(rcv, ds, x, |x|);
    }
    var r := FeedAll(rcv, FRESH, text);
    if r.status.Open? {
      NothingSent(rcv);
      DeliveredSendable(rcv, FRESH, text);
      BytesConserved(rcv, FRESH, text);
      assert Taken(FRESH) + text[..|text|] == text;
      OpenFrame(r);
    }
  }

  lemma NothingSent(rcv: Receiver)
    ensures Sendable(rcv, [])
  {
  }

  lemma OpenFrame(c: Conn)
    requires Good(c) && c.status.Open?
    ensures Incomplete(c.frame) && |c.frame| <= TCP_BUF_SIZE
  {
    hide Incomplete, InFrame;
    FrameIncomplete(c.frame, c.scan);
  }

  /** On a new connection an overrun is reported exactly when accepted messages are followed by
      a buffer full of bytes that hold no complete message, and by at least one byte more. */
  lemma OverrunOnStream(rcv: Receiver, text: string)
    ensures Good(FRESH)
    ensures FeedAll(rcv, FRESH, text).status.Overrun? <==>
              exists k: nat, ds, x :: k < |text| && |x| == TCP_BUF_SIZE && Splits(rcv, text[..k], ds, x)
  {
    hide Good, Feed, FeedAll, Splits;
    FreshGood(rcv);
    OverrunExactly(rcv, FRESH, text);
    if k: nat :| k < |text| && Reaches(rcv, FRESH, text, k) {
      var r := FeedAll(rcv, FRESH, text[..k]);
      OpenExactly(rcv, text[..k], r.delivered, r.frame);
    }
    if k: nat, ds, x :| k < |text| && |x| == TCP_BUF_SIZE && Splits(rcv, text[..k], ds, x) {
      OpenExactly(rcv, text[..k], ds, x);
      assert Reaches(rcv, FRESH, text, k);
    }
  }

  // --- the other two ways to close ---

  /** Accepted messages, then a header block without a length. */
  predicate Lengthless(rcv: Receiver, text: string, ds: seq<Delivery>, lead: string, h: string) {
    && Sendable(rcv, ds) && AllBlank(lead) && |lead| + |h| <= TCP_BUF_SIZE
    && h != "" && !IsBlank(h[0]) && HeaderBlock(h) && NoClen(h)
    && text == Flat(ds) + (lead + h)
  }

  /** Accepted messages, then a framed one that receive_msg refuses. */
  predicate Refused(rcv: Receiver, text: string, ds: seq<Delivery>, d: Delivery) {
    && Sendable(rcv, ds) && AllBlank(d.lead) && Framed(d.msg) && |d.lead| + |d.msg| <= TCP_BUF_SIZE
    && !rcv(ds, d.msg)
    && text == Flat(ds) + (d.lead + d.msg)
  }

  /** The byte at which a connection closes. */
  lemma {:induction false} ClosesAt(rcv: Receiver, c: Conn, text: string) returns (k: nat)
    requires Good(c) && c.status.Open? && !FeedAll(rcv, c, text).status.Open?
    ensures k < |text|
    ensures var c' := FeedAll(rcv, c, text[..k]); c'.status.Open? && Feed(rcv, c', text[k]) == FeedAll(rcv, c, text)
    decreases |text|
  {
    hide Good, Feed;
    var c' := Feed(rcv, c, text[0]);
    if c'.status.Open? {
      k := ClosesAt(rcv, c', text[1..]);
      assert text[..k + 1][0] == text[0] && text[..k + 1][1..] == text[1..][..k];
      k := k + 1;
    } else {
      ClosedIgnores(rcv, c', text[1..]);
      k := 0;
    }
  }

  lemma StaysClosed(rcv: Receiver, text: string, k: nat)
    requires k <= |text|
    ensures Good(FRESH)
    ensures var c := FeedAll(rcv, FRESH, text[..k]); !c.status.Open? ==> FeedAll(rcv, FRESH, text) == c
  {
    hide Good, FeedAll;
    FreshGood(rcv);
    var c := FeedAll(rcv, FRESH, text[..k]);
    assert text == text[..k] + text[k..];
    FeedAppend(rcv, FRESH, text[..k], text[k..]);
    if !c.status.Open? { ClosedIgnores(rcv, c, text[k..]); }
  }

  lemma FeedNoLength(rcv: Receiver, c: Conn, m: string, b: char)
    requires Good(c) && c.status.Open? && |c.frame| < TCP_BUF_SIZE && Tracks(m, c.scan)
    requires HeaderBlock(m + [b]) && NoClen(m + [b])
    ensures FeedAll(rcv, c, [b]).status == NoLength
  {
    hide Patterns, FirstClen, NoClen, Terminated, Unterminated;
    assert [b][1..] == "";
    assert FeedAll(rcv, c, [b]) == FeedAll(rcv, Feed(rcv, c, b), "");
    StepTracks(m, c.scan, b, |c.frame|);
    if c.scan.hasClen { FirstClenSome(m + [b], c.scan.contentLen); }
  }

  lemma LengthlessCloses(rcv: Receiver, text: string, ds: seq<Delivery>, lead: string, h: string)
    requires Lengthless(rcv, text, ds, lead, h)
    ensures Good(FRESH) && FeedAll(rcv, FRESH, text).status == NoLength
  {
    hide Good, Feed, FeedAll, AllBlank, Tracks, HeaderBlock, NoClen, Sendable;
    FreshGood(rcv);
    StreamRoundTrip(rcv, ds);
    var c0, c1 := Conn("", INIT, ds, Open), Conn(lead, INIT, ds, Open);
    FeedAppend(rcv, FRESH, Flat(ds), lead + h);
    FeedAppend(rcv, c0, lead, h);
    FeedLead(rcv, ds, lead, "");
    assert "" + lead == lead;
    BlockLength(h);
    var m, b := h[..|h| - 1], h[|h| - 1];
    assert h == m + [b];
    FeedHeaders(rcv, ds, lead, h, |h| - 1);
    FeedAppend(rcv, c1, m, [b]);
    FeedNoLength(rcv, FeedAll(rcv, c1, m), m, b);
  }

  lemma RefusedCloses(rcv: Receiver, text: string, ds: seq<Delivery>, d: Delivery)
    requires Refused(rcv, text, ds, d)
    ensures Good(FRESH) && FeedAll(rcv, FRESH, text).status == Rejected
  {
    hide Good, Feed, FeedAll, AllBlank, Framed, Sendable;
    FreshGood(rcv);
    StreamRoundTrip(rcv, ds);
    FeedAppend(rcv, FRESH, Flat(ds), d.lead + d.msg);
    FeedFramed(rcv, ds, d.lead, d.msg);
    assert (d.lead + d.msg)[|d.lead|..] == d.msg;
  }

  /** What the byte that closes a connection completes. */
  lemma LastByte(rcv: Receiver, c: Conn, b: char)
    requires Good(c) && c.status.Open?
    ensures var r := Feed(rcv, c, b);
      && (r.status.NoLength? ==>
            && |c.frame| < TCP_BUF_SIZE && r.frame == c.frame + [b] && r.scan.start < |r.frame|
            && AllBlank(r.frame[..r.scan.start]) && !IsBlank(r.frame[r.scan.start])
            && HeaderBlock(r.frame[r.scan.start..]) && NoClen(r.frame[r.scan.start..]))
      && (r.status.Rejected? ==>
            && |c.frame| < TCP_BUF_SIZE && |r.delivered| > 0
            && var d := r.delivered[|r.delivered| - 1];
               && AllBlank(d.lead) && Framed(d.msg) && d.lead + d.msg == c.frame + [b] && !rcv(c.delivered, d.msg))
  {
    hide Step, HeaderBlock, NoClen, Framed, AllBlank, InFrame;
    if |c.frame| < TCP_BUF_SIZE {
      var x := c.frame + [b];
      assert x[..|c.frame|] == c.frame && x[|c.frame|] == b;
      StepGood(c.frame, c.scan, b);
      StartsAt(x, |c.frame|, c.scan);
    }
  }

  /** On a new connection the length is missed exactly when accepted messages are followed by a
      header block without a Content-Length. */
  lemma NoLengthOnStream(rcv: Receiver, text: string)
    ensures Good(FRESH)
    ensures FeedAll(rcv, FRESH, text).status.NoLength? <==>
              exists k: nat, ds, lead, h :: k <= |text| && Lengthless(rcv, text[..k], ds, lead, h)
  {
    hide Good, Feed, FeedAll, Lengthless;
    FreshGood(rcv);
    var r := FeedAll(rcv, FRESH, text);
    if r.status.NoLength? {
      var k := ClosesAt(rcv, FRESH, text);
      var c := FeedAll(rcv, FRESH, text[..k]);
      LastByte(rcv, c, text[k]);
      OpenExactly(rcv, text[..k], c.delivered, c.frame);
      ClosedLengthless(rcv, text, k, c, r);
    }
    if k: nat, ds, lead, h :| k <= |text| && Lengthless(rcv, text[..k], ds, lead, h) {
      LengthlessCloses(rcv, text[..k], ds, lead, h);
      StaysClosed(rcv, text, k);
    }
  }

  lemma ClosedLengthless(rcv: Receiver, text: string, k: nat, c: Conn, r: Conn)
    requires k < |text| && Splits(rcv, text[..k], c.delivered, c.frame) && |c.frame| < TCP_BUF_SIZE
    requires r.frame == c.frame + [text[k]] && r.scan.start < |r.frame|
    requires AllBlank(r.frame[..r.scan.start]) && !IsBlank(r.frame[r.scan.start])
    requires HeaderBlock(r.frame[r.scan.start..]) && NoClen(r.frame[r.scan.start..])
    ensures Lengthless(rcv, text[..k + 1], c.delivered, r.frame[..r.scan.start], r.frame[r.scan.start..])
  {
    hide AllBlank, HeaderBlock, NoClen, Sendable, Incomplete;
    assert text[..k + 1] == text[..k] + [text[k]] == Flat(c.delivered) + (c.frame + [text[k]]);
    assert r.frame[..r.scan.start] + r.frame[r.scan.start..] == r.frame;
  }

  /** On a new connection a message is refused exactly when accepted messages are followed by a
      framed one that receive_msg does not accept. */
  lemma RejectedOnStream(rcv: Receiver, text: string)
    ensures Good(FRESH)
    ensures FeedAll(rcv, FRESH, text).status.Rejected? <==>
              exists k: nat, ds, d :: k <= |text| && Refused(rcv, text[..k], ds, d)
  {
    hide Good, Feed, FeedAll, Refused;
    FreshGood(rcv);
    var r := FeedAll(rcv, FRESH, text);
    if r.status.Rejected? {
      var k := ClosesAt(rcv, FRESH, text);
      var c := FeedAll(rcv, FRESH, text[..k]);
      LastByte(rcv, c, text[k]);
      OpenExactly(rcv, text[..k], c.delivered, c.frame);
      ClosedRefused(rcv, text, k, c, r.delivered[|r.delivered| - 1]);
    }
    if k: nat, ds, d :| k <= |text| && Refused(rcv, text[..k], ds, d) {
      RefusedCloses(rcv, text[..k], ds, d);
      StaysClosed(rcv, text, k);
    }
  }

  lemma ClosedRefused(rcv: Receiver, text: string, k: nat, c: Conn, d: Delivery)
    requires k < |text| && Splits(rcv, text[..k], c.delivered, c.frame) && |c.frame| < TCP_BUF_SIZE
    requires AllBlank(d.lead) && Framed(d.msg) && d.lead + d.msg == c.frame + [text[k]] && !rcv(c.delivered, d.msg)
    ensures Refused(rcv, text[..k + 1], c.delivered, d)
  {
    hide AllBlank, Framed, Sendable, Incomplete;
    assert text[..k + 1] == text[..k] + [text[k]] == Flat(c.delivered) + (c.frame + [text[k]]);
    assert |d.lead| + |d.msg| == |c.frame + [text[k]]|;
  }
}
