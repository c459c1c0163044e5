/**
  The buffered reader of a TCP connection: reads whatever the socket has, scans it with bulk
  steps, hands over complete messages and moves the remaining bytes to the front of the
  buffer.  Compared with the byte-at-a-time framer.
*/
module TcpReader {
  import opened TcpScan
  import opened TcpFramer

  /** Outcome of one read(): some bytes, nothing yet, end of file, or an error. */
  datatype ReadResult = Data(text: string) | WouldBlock | Eof | ReadFailed

  /** CONN_RELEASE, CONN_EOF, CONN_ERROR and why. */
  datatype Response = Release | AtEof | Closed(why: Status) | ReadError

  /** A scanner run and the byte-wise framer over the same bytes. */
  lemma {:induction false} FeedRun(rcv: Receiver, c: Conn, text: string)
    requires Good(c) && c.status.Open? && |c.frame| + |text| <= TCP_BUF_SIZE
    ensures Running(c.scan)
    ensures var (s, n) := ScanRun(c.scan, |c.frame|, text);
      && (s.bad ==> FeedAll(rcv, c, text) == Conn(c.frame + text[..n], s, c.delivered, NoLength))
      && (!s.bad && s.complete ==>
            && s.start <= |c.frame| + n && Good(Deliver(rcv, c.delivered, c.frame + text[..n], s.start))
            && FeedAll(rcv, c, text) ==
                 FeedAll(rcv, Deliver(rcv, c.delivered, c.frame + text[..n], s.start), text[n..]))
      && (!s.bad && !s.complete ==> FeedAll(rcv, c, text) == Conn(c.frame + text, s, c.delivered, Open))
    decreases |text|
  {
    hide Good, Feed, Step, Deliver;
    GoodRuns(c);
    if text == "" {
      assert c.frame + text == c.frame;
    } else {
      var b, t := text[0], text[1..];
      FeedOne(rcv, c, b);
      var s := Step(c.scan, b, |c.frame|);
      var c' := Feed(rcv, c, b);
      var (r, n) := ScanRun(c.scan, |c.frame|, text);
      if s.bad {
        ClosedIgnores(rcv, c', t);
        assert ScanRun(s, |c.frame| + 1, t) == (s, 0);
        assert n == 1 && text[..1] == [b];
      } else if s.complete {
        assert ScanRun(s, |c.frame| + 1, t) == (s, 0);
        assert n == 1 && text[..1] == [b] && text[1..] == t;
      } else {
        FeedRun(rcv, c', t);
        assert c.frame + [b] + t[..n - 1] == c.frame + text[..n];
        assert t[n - 1..] == text[n..];
        assert c.frame + [b] + t == c.frame + text;
      }
    }
  }

  lemma GoodRuns(c: Conn)
    requires Good(c) && c.status.Open?
    ensures Running(c.scan)
  {
  }

  lemma FeedOne(rcv: Receiver, c: Conn, b: char)
    requires Good(c) && c.status.Open? && |c.frame| < TCP_BUF_SIZE
    ensures Running(c.scan)
    ensures var s := Step(c.scan, b, |c.frame|);
      && (s.bad ==> Feed(rcv, c, b) == Conn(c.frame + [b], s, c.delivered, NoLength))
      && (!s.bad && s.complete ==>
            s.start <= |c.frame + [b]| && Feed(rcv, c, b) == Deliver(rcv, c.delivered, c.frame + [b], s.start))
      && (!s.bad && !s.complete ==> Feed(rcv, c, b) == Conn(c.frame + [b], s, c.delivered, Open))
  {
  }

  class TcpConn {
    /** One byte more than is ever read, for the terminator put behind a message. */
    const buf: array<char>
    var pos: nat
    var parsed: nat
    var scan: Scan
    var delivered: seq<Delivery>

    /** init_tcp_req */
    constructor ()
      ensures Idle() && fresh(buf) && Abs() == FRESH
    {
      buf := new char[TCP_BUF_SIZE + 1];
      pos, parsed, scan, delivered := 0, 0, INIT, [];
    }

    ghost predicate Shape()
      reads this
    {
      buf.Length == TCP_BUF_SIZE + 1 && parsed <= pos <= TCP_BUF_SIZE
    }

    ghost function Abs(): Conn
      reads this, buf
      requires Shape()
    {
      Conn(buf[..parsed], scan, delivered, Open)
    }

    /** Between two calls everything read has been scanned. */
    ghost predicate Idle()
      reads this, buf
    {
      Shape() && parsed == pos && Good(Abs())
    }

    /** tcp_read: appends what read() returns. */
    method Read(input: ReadResult)
      requires Shape() && parsed == pos < TCP_BUF_SIZE
      requires input.Data? ==> 0 < |input.text| <= TCP_BUF_SIZE - pos
      modifies this`pos, buf
      ensures Shape() && buf[..parsed] == old(buf[..parsed])
      ensures input.Data? ==> buf[parsed..pos] == input.text
      ensures !input.Data? ==> pos == parsed
    {
      if input.Data? {
        for i := 0 to |input.text|
          invariant pos == old(pos)
          invariant forall j :: 0 <= j < pos ==> buf[j] == old(buf[j])
          invariant forall j :: 0 <= j < i ==> buf[pos + j] == input.text[j]
        {
          buf[pos + i] := input.text[i];
        }
        pos := pos + |input.text|;
      }
    }

    /** q_memchr(p, '\\n', pos - p) */
    method FindLf(p: nat) returns (k: nat)
      requires Shape() && p <= pos
      ensures p <= k <= pos && '\n' !in buf[p..k] && (k < pos ==> buf[k] == '\n')
    {
      k := p;
      while k < pos && buf[k] != '\n'
        invariant p <= k <= pos && '\n' !in buf[p..k]
      {
        k := k + 1;
      }
    }

    /** The scanning loop of tcp_read_headers. */
    method Parse()
      requires Shape() && Running(scan)
      modifies this`parsed, this`scan
      ensures old(parsed) <= parsed <= pos
      ensures ScanRun(old(scan), old(parsed), old(buf[parsed..pos])) == (scan, parsed - old(parsed))
    {
      hide Step, RunsTo, ScanRun;
      ghost var s0, p0, text := scan, parsed, buf[parsed..pos];
      var p := parsed;
      RunsStart(s0, p0, text);
      while p < pos && !scan.bad && !scan.complete
        invariant p0 <= p <= pos && parsed == p0
        invariant scan.bad || scan.complete || Running(scan)
        invariant RunsTo(s0, p0, text, scan, p - p0)
        decreases pos - p
      {
        ghost var s, p1 := scan, p;
        assert text[p - p0..] == buf[p..pos];
        scan, p := ParseStep(p);
        RunsFurther(s0, p0, text, s, p1 - p0, scan, p - p1);
      }
      RunsDone(s0, p0, text, scan, p - p0);
      parsed := p;
    }

    /** One round of the loop: a bulk step in the body or in an uninteresting line, else one byte. */
    method ParseStep(p: nat) returns (s: Scan, q: nat)
      requires Shape() && p < pos && Running(scan)
      ensures p < q <= pos && (s.bad || s.complete || Running(s))
      ensures RunsTo(scan, p, buf[p..pos], s, q - p)
    {
      hide RunsTo, ScanRun;
      s := scan;
      if scan.state.Body? {
        var remaining := if pos - p > scan.toGo then scan.toGo else pos - p;
        BodyBulk(scan, p, buf[p..pos], remaining);
        s := s.(toGo := s.toGo - remaining, complete := s.toGo == remaining);
        q := p + remaining;
      } else if scan.state.Skip? {
        q := FindLf(p);
        assert buf[p..pos][..q - p] == buf[p..q];
        SkipBulk(scan, p, buf[p..pos], q - p);
        if q < pos {
          s := s.(state := Lf);
          q := q + 1;
        }
      } else {
        StepOnce(scan, p, buf[p..pos]);
        s := Step(scan, buf[p], p);
        q := p + 1;
      }
    }

    /** memmove of the bytes behind a message to the front, and a fresh tcp_req. */
    method Compact()
      requires Shape()
      modifies this`pos, this`parsed, this`scan, buf
      ensures Shape() && parsed == 0 && scan == INIT
      ensures buf[..pos] == old(buf[parsed..pos])
    {
      var size := pos - parsed;
      for i := 0 to size
        invariant forall j :: 0 <= j < i ==> buf[j] == old(buf[parsed + j])
        invariant forall j :: i <= j < buf.Length ==> buf[j] == old(buf[j])
        invariant parsed == old(parsed) && pos == old(pos)
      {
        buf[i] := buf[parsed + i];
      }
      pos, parsed, scan := size, 0, INIT;
    }

    /** The message is terminated in place for receive_msg and the byte put back. */
    method HandOver(rcv: Receiver) returns (ok: bool)
      requires Shape() && scan.start <= parsed
      modifies this`delivered, buf
      ensures buf[..] == old(buf[..])
      ensures ok == old(rcv(delivered, buf[scan.start..parsed]))
      ensures delivered == old(delivered + [Delivery(buf[..scan.start], buf[scan.start..parsed])])
    {
      var c := buf[parsed];
      buf[parsed] := '\0';
      var msg := buf[scan.start..parsed];
      ok := rcv(delivered, msg);
      delivered := delivered + [Delivery(buf[..scan.start], msg)];
      buf[parsed] := c;
    }

    /** What a call has to leave behind when the bytes at hand lead to `c`. */
    ghost predicate Settled(c: Conn, resp: Response)
      reads this, buf
    {
      && Shape() && delivered == c.delivered
      && resp == (if c.status.Open? then Release else Closed(c.status))
      && (c.status.Open? ==> Idle() && Abs() == c)
    }

    /** One round of tcp_read_req after the read: scan, and hand over a complete message. */
    method Round(rcv: Receiver) returns (again: bool, resp: Response)
      requires Shape() && Good(Abs())
      modifies this, buf
      ensures Shape() && old(Good(Abs()))
      ensures !again ==> Settled(old(FeedAll(rcv, Abs(), buf[parsed..pos])), resp)
      ensures again ==> Good(Abs()) && pos < old(pos)
      ensures again ==> FeedAll(rcv, Abs(), buf[parsed..pos]) == old(FeedAll(rcv, Abs(), buf[parsed..pos]))
    {
      hide Good, FeedAll, ScanRun;
      ghost var c0, text := Abs(), buf[parsed..pos];
      FeedRun(rcv, c0, text);
      again, resp := false, Release;
      Parse();
      ghost var n := parsed - old(parsed);
      ghost var rest := buf[parsed..pos];
      assert buf[..parsed] == c0.frame + text[..n] && rest == text[n..];
      if scan.bad {
        resp := Closed(NoLength);
      } else if !scan.complete {
        assert c0.frame + text[..n] == c0.frame + text;
      } else {
        ghost var c1 := Deliver(rcv, delivered, buf[..parsed], scan.start);
        assert buf[..parsed][scan.start..] == buf[scan.start..parsed];
        assert buf[..parsed][..scan.start] == buf[..scan.start];
        var ok := HandOver(rcv);
        if !ok {
          ClosedIgnores(rcv, c1, rest);
          resp := Closed(Rejected);
        } else {
          assert buf[parsed..pos] == rest;
          Compact();
          assert Abs() == c1 && buf[parsed..pos] == rest;
          again := pos > 0;
          NothingLeft(rcv, c1, rest);
        }
      }
    }

    static lemma NothingLeft(rcv: Receiver, c: Conn, rest: string)
      requires Good(c)
      ensures rest == "" ==> FeedAll(rcv, c, rest) == c
    {
    }

    /** tcp_read_req after the read: rounds until the bytes at hand are used up; each round
        shortens what is kept. */
    method Process(rcv: Receiver) returns (resp: Response)
      requires Shape() && Good(Abs())
      modifies this, buf
      ensures old(Good(Abs())) && Settled(old(FeedAll(rcv, Abs(), buf[parsed..pos])), resp)
    {
      hide Good, FeedAll;
      ghost var goal := FeedAll(rcv, Abs(), buf[parsed..pos]);
      var again;
      again, resp := Round(rcv);
      while again
        invariant again ==> Shape() && Good(Abs()) && FeedAll(rcv, Abs(), buf[parsed..pos]) == goal
        invariant !again ==> Settled(goal, resp)
        decreases again, pos
      {
        again, resp := Round(rcv);
      }
    }

    /** tcp_read_req on an idle connection, given what read() would return.  A full buffer is
        an overrun, whatever the socket holds. */
    method ReadReq(rcv: Receiver, input: ReadResult) returns (resp: Response)
      requires Idle()
      requires input.Data? && pos < TCP_BUF_SIZE ==> 0 < |input.text| <= TCP_BUF_SIZE - pos
      modifies this, buf
      ensures old(Good(Abs()))
      ensures old(pos) == TCP_BUF_SIZE ==> resp == Closed(Overrun) && delivered == old(delivered)
      ensures old(pos) < TCP_BUF_SIZE && input.Data? ==> Settled(FeedAll(rcv, old(Abs()), input.text), resp)
      ensures old(pos) < TCP_BUF_SIZE && !input.Data? ==>
        && Idle() && Abs() == old(Abs())
        && resp == (match input case WouldBlock => Release case Eof => AtEof case _ => ReadError)
    {
      hide Good, FeedAll;
      if pos == TCP_BUF_SIZE {
        return Closed(Overrun);
      }
      Read(input);
      match input {
        case Data(text) =>
          resp := Process(rcv);
        case WouldBlock =>
          resp := Release;
        case Eof =>
          resp := AtEof;
        case ReadFailed =>
          resp := ReadError;
      }
    }
  }

  /** A whole connection: `cut` says how many of the pending bytes each read() returns. The
      messages delivered and the final status are those of the byte-wise framer, so they do
      not depend on how the stream is cut into reads. */
  method Serve(rcv: Receiver, stream: string, cut: nat -> nat) returns (delivered: seq<Delivery>, status: Status)
    ensures Good(FRESH)
    ensures var c := FeedAll(rcv, FRESH, stream); delivered == c.delivered && status == c.status
  {
    hide Good, FeedAll;
    FreshGood(rcv);
    var conn := new TcpConn();
    var i, round := 0, 0;
    status := Open;
    assert stream[..0] == "";
    while i < |stream| && status.Open?
      invariant i <= |stream| && fresh(conn) && fresh(conn.buf)
      invariant status.Open? ==> conn.Idle() && conn.Abs() == FeedAll(rcv, FRESH, stream[..i])
      invariant !status.Open? ==>
          var c := FeedAll(rcv, FRESH, stream); conn.delivered == c.delivered && status == c.status
      decreases status.Open?, |stream| - i
    {
      var most := if |stream| - i < TCP_BUF_SIZE - conn.pos then |stream| - i else TCP_BUF_SIZE - conn.pos;
      var n := if 0 < cut(round) < most then cut(round) else most;
      round := round + 1;
      ServeStep(rcv, stream, i, n);
      var resp := conn.ReadReq(rcv, Data(stream[i..i + n]));
      if resp.Closed? {
        if n == 0 { FullStep(rcv, stream, i); }
        status := resp.why;
      }
      i := i + n;
    }
    assert i == |stream| ==> stream[..i] == stream;
    delivered := conn.delivered;
  }

  lemma ServeStep(rcv: Receiver, stream: string, i: nat, n: nat)
    requires i + n <= |stream| && Good(FRESH)
    ensures var c := FeedAll(rcv, FRESH, stream[..i]);
      && FeedAll(rcv, FRESH, stream[..i + n]) == FeedAll(rcv, c, stream[i..i + n])
      && (!FeedAll(rcv, c, stream[i..i + n]).status.Open? ==>
          FeedAll(rcv, FRESH, stream) == FeedAll(rcv, c, stream[i..i + n]))
  {
    hide Good, FeedAll;
    var a, b := stream[..i], stream[i..i + n];
    assert stream[..i + n] == a + b;
    FeedAppend(rcv, FRESH, a, b);
    assert stream == (a + b) + stream[i + n..];
    FeedAppend(rcv, FRESH, a + b, stream[i + n..]);
    var c := FeedAll(rcv, FRESH, a + b);
    if !c.status.Open? { ClosedIgnores(rcv, c, stream[i + n..]); }
  }

  /** A full frame with more to come overruns. */
  lemma FullStep(rcv: Receiver, stream: string, i: nat)
    requires i < |stream| && Good(FRESH)
    ensures var c, r := FeedAll(rcv, FRESH, stream[..i]), FeedAll(rcv, FRESH, stream);
      FullAt(c) ==> r.delivered == c.delivered && r.status == Overrun
  {
    hide Good;
    ServeStep(rcv, stream, i, 1);
    var c, b := FeedAll(rcv, FRESH, stream[..i]), stream[i..i + 1];
    assert b == [stream[i]] && b[1..] == "";
    assert FeedAll(rcv, c, b) == FeedAll(rcv, Feed(rcv, c, stream[i]), "");
  }
}
