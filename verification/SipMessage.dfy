/**
  A received message with its two edit lists, the operations that queue edits on it and
  the construction of the message to send.
*/
module SipMessage {
  import opened Words
  import opened LumpText
  import opened LumpModel
  import opened LumpList
  import opened Rewrite
  import opened Decimal

  /** Result of del_lump and anchor_lump: the program aborts on offsets outside the message. */
  datatype LumpRef = Aborted | InHeader(k: nat) | InBody(k: nat)

  /** Replacement of the request URI. */
  datatype UriEdit = UriEdit(span: Span, uri: string)

  /** A Via parameter to set: its text, and the span of the value to overwrite, if present. */
  datatype ParamEdit = ParamEdit(text: string, existing: Option<Span>)

  /** First original offset that the lumps are applied to. */
  function StartOf(uri: Option<UriEdit>): nat {
    if uri.Some? then uri.value.span.offset + uri.value.span.len else 0
  }

  /** What is written before any lump is applied. */
  function Prefix(orig: string, uri: Option<UriEdit>): string
    requires StartOf(uri) <= |orig|
  {
    if uri.Some? then orig[..uri.value.span.offset] + uri.value.uri else ""
  }

  /** Facts about a list with one more anchored lump. */
  lemma LinkedBounds(ls: seq<Lump>, l: Lump, n: nat)
    requires l.Anchored() && InBounds(ls, n)
    ensures InBounds(Linked(ls, l), n) <==> l.Beyond() <= n
  {
    var k := SlotExists(ls, l.op.offset);
    LinkedAt(ls, l, k);
    var rs := Linked(ls, l);
    assert rs[k] == l;
    forall i | 0 <= i < |rs| && rs[i].Anchored() && i != k
      ensures rs[i].Beyond() <= n
    {
      if i < k { assert rs[i] == ls[i]; } else { assert rs[i] == ls[i - 1]; }
    }
  }

  /** A deletion of 2^32 - 1 bytes from byte 1 on passes the range checks of del_lump on every
      message that is not empty, and reaches past its end. */
  lemma WrappedDeletion(ls: seq<Lump>, n: u32)
    requires InBounds(ls, n) && n > 0
    ensures var l := Lump(Del(1, 0xffff_ffff), [], []);
      && !(l.op.offset > n || Wrap(l.op.offset + l.op.len) > n)
      && !InBounds(Linked(ls, l), n)
  {
    LinkedBounds(ls, Lump(Del(1, 0xffff_ffff), [], []), n);
  }

  /** Linking a header edit keeps the zones apart. */
  lemma LinkedZones(hs: seq<Lump>, bs: seq<Lump>, l: Lump, w: nat, b: nat, n: nat)
    requires l.Anchored() && Zones(hs, bs, w, b, n)
    requires w <= l.op.offset && l.Beyond() <= b
    ensures Zones(Linked(hs, l), bs, w, b, n)
  {
    LinkedBounds(hs, l, b);
    var k := SlotExists(hs, l.op.offset);
    LinkedAt(hs, l, k);
    SlotKeepsOrder(hs, l, k);
    var rs := Linked(hs, l);
    forall i | 0 <= i < |rs| && rs[i].Anchored()
      ensures w <= rs[i].op.offset
    {
      if i < k { assert rs[i] == hs[i]; } else if i > k { assert rs[i] == hs[i - 1]; }
    }
  }

  /** A linked lump brings its text along and displaces none. */
  lemma LinkedCarries(ls: seq<Lump>, l: Lump, t: string)
    requires l.Anchored() && (Carries(ls, t) || InChain(l.after, t))
    ensures Carries(Linked(ls, l), t)
  {
    var k := SlotExists(ls, l.op.offset);
    LinkedAt(ls, l, k);
    var rs := Linked(ls, l);
    if InChain(l.after, t) {
      assert rs[k] == l;
    } else {
      var i :| 0 <= i < |ls| && ls[i].Anchored() && InChain(ls[i].after, t);
      if i < k { assert rs[i] == ls[i]; } else { assert rs[i + 1] == ls[i]; }
    }
  }

  /** `text` is the original with the new URI and the edits applied. */
  ghost predicate IsRewrite(text: string, env: Env, orig: string, ls: seq<Lump>, uri: Option<UriEdit>) {
    && StartOf(uri) <= |orig| && InBounds(ls, |orig|) && Sorted(ls) && AllFrom(ls, 0, StartOf(uri))
    && text == Prefix(orig, uri) + Weave(env, orig, ls, 0, StartOf(uri))
  }

  /** `body` is the original from b on with the body edits applied. */
  ghost predicate IsBody(body: string, env: Env, orig: string, bs: seq<Lump>, b: nat) {
    b <= |orig| && InBounds(bs, |orig|) && Sorted(bs) && AllFrom(bs, 0, b) && body == BodyPart(env, orig, bs, b)
  }

  /** Overwriting byte p of what is written turns a 503 at p - 2 of the original into 500. */
  ghost predicate CodeIsHit(env: Env, orig: string, ls: seq<Lump>, p: nat) {
    InBounds(ls, |orig|) && Sorted(ls) && p < |orig| && PatchHits(env, orig, ls, p, '0')
  }

  // --- the edits the builders queue themselves ---

  /** del_lump or anchor_lump on a span, with text queued on it. */
  function Edit(span: Span, delete: bool, before: seq<Chunk>, after: seq<Chunk>): (l: Lump)
    ensures l.Anchored()
  {
    Lump(if delete then Del(span.offset, span.len) else Nop(span.offset, 0), before, after)
  }

  function WithPath(hs: seq<Lump>, path: Option<(nat, string)>): seq<Lump> {
    if path.None? then hs
    else Linked(hs, Edit(Span(path.value.0, 0), false, [Add("Route: " + path.value.1 + CRLF)], []))
  }

  /** Whether adjust_clen writes a Content-Length line. */
  predicate NeedsClen(delta: u32, proto: Proto, clen: Option<Span>) {
    ((proto.Tcp? || proto.Tls?) && clen.None?) || (delta != 0 && (clen.Some? || !proto.Udp?))
  }

  /** The new line replaces the old header, or goes to the end of the headers. */
  function WithClen(hs: seq<Lump>, need: bool, clen: Option<Span>, unparsed: nat, n: nat): seq<Lump> {
    if !need then hs
    else if clen.Some? then Linked(hs, Edit(clen.value, true, [], [Add(ClenLine(n))]))
    else Linked(hs, Edit(Span(unparsed, 0), false, [], [Add(ClenLine(n))]))
  }

  /** Where a Via parameter goes: over its old value, or after host:port. */
  function ParamLump(p: ParamEdit, paramsAt: nat, after: seq<Chunk>): (l: Lump)
    ensures l.Anchored()
  {
    if p.existing.Some? then Edit(p.existing.value, true, [], after) else Edit(Span(paramsAt, 0), false, [], after)
  }

  /** The local Via line in front of the first Via, and the parameters set in that Via; an
      rport that is not there yet shares the place made for received. */
  function WithVia(hs: seq<Lump>, viaAt: nat, viaLine: string, paramsAt: nat,
                   received: Option<ParamEdit>, rport: Option<ParamEdit>): seq<Lump> {
    var h := Linked(hs, Edit(Span(viaAt, 0), false, [Add(viaLine)], []));
    if received.Some? then
      var r := received.value;
      if rport.None? then Linked(h, ParamLump(r, paramsAt, [Add(r.text)]))
      else if rport.value.existing.None? then
        Linked(h, ParamLump(r, paramsAt, [Add(rport.value.text), Add(r.text)]))
      else
        Linked(Linked(h, ParamLump(r, paramsAt, [Add(r.text)])),
            ParamLump(rport.value, paramsAt, [Add(rport.value.text)]))
    else if rport.Some? then Linked(h, ParamLump(rport.value, paramsAt, [Add(rport.value.text)]))
    else h
  }

  lemma PathZones(hs: seq<Lump>, bs: seq<Lump>, path: Option<(nat, string)>, w: nat, b: nat, n: nat)
    requires Zones(hs, bs, w, b, n) && (path.Some? ==> w <= path.value.0 <= b)
    ensures Zones(WithPath(hs, path), bs, w, b, n)
  {
    if path.Some? {
      LinkedZones(hs, bs, Edit(Span(path.value.0, 0), false, [Add("Route: " + path.value.1 + CRLF)], []), w, b, n);
    }
  }

  lemma ClenZones(hs: seq<Lump>, bs: seq<Lump>, need: bool, clen: Option<Span>, unparsed: nat, v: nat, w: nat,
      b: nat, n: nat)
    requires Zones(hs, bs, w, b, n) && w <= unparsed <= b
    requires clen.Some? ==> w <= clen.value.offset && clen.value.offset + clen.value.len <= b
    ensures Zones(WithClen(hs, need, clen, unparsed, v), bs, w, b, n)
    ensures need ==> Carries(WithClen(hs, need, clen, unparsed, v), ClenLine(v))
  {
    if need {
      hide Numeral, ClenLine;
      var after := [Add(ClenLine(v))];
      assert after[0] == Add(ClenLine(v));
      assert InChain(after, ClenLine(v));
      var l := if clen.Some? then Edit(clen.value, true, [], after) else Edit(Span(unparsed, 0), false, [], after);
      LinkedZones(hs, bs, l, w, b, n);
      LinkedCarries(hs, l, ClenLine(v));
    }
  }

  predicate ParamIn(p: Option<ParamEdit>, w: nat, b: nat) {
    p.Some? && p.value.existing.Some? ==>
      w <= p.value.existing.value.offset && p.value.existing.value.offset + p.value.existing.value.len <= b
  }

  lemma ViaZones(hs: seq<Lump>, bs: seq<Lump>, viaAt: nat, viaLine: string, paramsAt: nat,
                 received: Option<ParamEdit>, rport: Option<ParamEdit>, w: nat, b: nat, n: nat)
    requires Zones(hs, bs, w, b, n) && w <= viaAt <= b && w <= paramsAt <= b
    requires ParamIn(received, w, b) && ParamIn(rport, w, b)
    ensures Zones(WithVia(hs, viaAt, viaLine, paramsAt, received, rport), bs, w, b, n)
    ensures forall t :: Carries(hs, t) ==> Carries(WithVia(hs, viaAt, viaLine, paramsAt, received, rport), t)
  {
    hide Zones, Linked, Carries;
    var l := Edit(Span(viaAt, 0), false, [Add(viaLine)], []);
    LinkedZones(hs, bs, l, w, b, n);
    LinkedCarriesAll(hs, l);
    var h := Linked(hs, l);
    if received.Some? {
      var r := received.value;
      var after := if rport.Some? && rport.value.existing.None? then [Add(rport.value.text), Add(r.text)]
          else [Add(r.text)];
      var lr := ParamLump(r, paramsAt, after);
      LinkedZones(h, bs, lr, w, b, n);
      LinkedCarriesAll(h, lr);
      h := Linked(h, lr);
    }
    if rport.Some? && (received.None? || rport.value.existing.Some?) {
      var lp := ParamLump(rport.value, paramsAt, [Add(rport.value.text)]);
      LinkedZones(h, bs, lp, w, b, n);
      LinkedCarriesAll(h, lp);
    }
  }

  lemma LinkedCarriesAll(ls: seq<Lump>, l: Lump)
    requires l.Anchored()
    ensures forall t :: Carries(ls, t) ==> Carries(Linked(ls, l), t)
  {
    forall t | Carries(ls, t)
      ensures Carries(Linked(ls, l), t)
    {
      LinkedCarries(ls, l, t);
    }
  }

  class SipMsg {
    const buf: string
    var eoh: Option<nat>
    const addRm: LumpList
    const bodyLumps: LumpList

    constructor (text: string)
      requires |text| < TWO32
      ensures Valid() && buf == text && eoh == None
      ensures fresh(addRm) && fresh(bodyLumps) && addRm.lumps == [] && bodyLumps.lumps == []
    {
      buf := text;
      eoh := None;
      addRm := new LumpList();
      bodyLumps := new LumpList();
    }

    /** What every operation keeps: both lists sorted, every edit inside the message. */
    ghost predicate Valid()
      reads this, addRm, bodyLumps
    {
      && addRm != bodyLumps && |buf| < TWO32
      && Sorted(addRm.lumps) && InBounds(addRm.lumps, |buf|)
      && Sorted(bodyLumps.lumps) && InBounds(bodyLumps.lumps, |buf|)
    }

    /** Header edits end at `b`, body edits start there, both after `w`. */
    ghost predicate Zoned(w: nat, b: nat)
      reads this, addRm, bodyLumps
    {
      && Valid() && Zones(addRm.lumps, bodyLumps.lumps, w, b, |buf|)
      && (eoh.Some? ==> eoh.value < b)
    }

    /** Offsets beyond the end of the headers belong to the body list. */
    predicate BodySide(offset: nat)
      reads this`eoh
    {
      eoh.Some? && offset > eoh.value
    }

    /** The parser reports spans of headers that follow the URI and end before the body. */
    predicate HeaderSpan(o: nat, len: nat, w: nat, b: nat)
      reads this`eoh
    {
      w <= o && o + len <= b && !BodySide(o)
    }

    predicate ParamOk(p: Option<ParamEdit>, w: nat, b: nat)
      reads this`eoh
    {
      p.Some? && p.value.existing.Some? ==>
        HeaderSpan(p.value.existing.value.offset, p.value.existing.value.len, w, b)
    }

    /** Chooses the list by offset and links `l` into it. */
    method Link(l: Lump) returns (r: LumpRef)
      requires addRm != bodyLumps && l.Anchored() && Sorted(addRm.lumps) && Sorted(bodyLumps.lumps)
      modifies addRm, bodyLumps
      ensures !r.Aborted? && (r.InBody? <==> BodySide(l.op.offset))
      ensures r.InHeader? ==> SortedSlot(old(addRm.lumps), l.op.offset, r.k)
      ensures r.InBody? ==> SortedSlot(old(bodyLumps.lumps), l.op.offset, r.k)
      ensures addRm.lumps == old(if BodySide(l.op.offset) then addRm.lumps else Linked(addRm.lumps, l))
      ensures bodyLumps.lumps == old(if BodySide(l.op.offset) then Linked(bodyLumps.lumps, l) else bodyLumps.lumps)
      ensures Sorted(addRm.lumps) && Sorted(bodyLumps.lumps)
    {
      if eoh.Some? && l.op.offset > eoh.value {
        var k := bodyLumps.InsertSorted(l);
        r := InBody(k);
      } else {
        var k := addRm.InsertSorted(l);
        r := InHeader(k);
      }
    }

    /** del_lump.  The range check adds two unsigned ints, so it lets a deletion through
        that reaches past the message exactly when the sum wraps around. */
    method DelLump(offset: u32, len: u32) returns (r: LumpRef)
      requires Valid()
      modifies addRm, bodyLumps
      ensures r.Aborted? <==> offset > |buf| || Wrap(offset + len) > |buf|
      ensures r.Aborted? ==> addRm.lumps == old(addRm.lumps) && bodyLumps.lumps == old(bodyLumps.lumps)
      ensures !r.Aborted? ==>
                var l := Lump(Del(offset, len), [], []);
                && (r.InBody? <==> BodySide(offset))
                && SortedSlot(old(if BodySide(offset) then bodyLumps.lumps else addRm.lumps), offset, r.k)
                && addRm.lumps == old(if BodySide(offset) then addRm.lumps else Linked(addRm.lumps, l))
                && bodyLumps.lumps == old(if BodySide(offset) then Linked(bodyLumps.lumps, l) else bodyLumps.lumps)
      ensures Valid() <==> r.Aborted? || offset + len < TWO32
    {
      hide Linked, Sorted, SortedSlot;
      if offset > |buf| || Wrap(offset + len) > |buf| {
        return Aborted;
      }
      var l := Lump(Del(offset, len), [], []);
      LinkedBounds(addRm.lumps, l, |buf|);
      LinkedBounds(bodyLumps.lumps, l, |buf|);
      r := Link(l);
    }

    /** anchor_lump: a NOP lump; its length is not looked at. */
    method AnchorLump(offset: u32, len: u32) returns (r: LumpRef)
      requires Valid()
      modifies addRm, bodyLumps
      ensures r.Aborted? <==> offset > |buf|
      ensures r.Aborted? ==> addRm.lumps == old(addRm.lumps) && bodyLumps.lumps == old(bodyLumps.lumps)
      ensures !r.Aborted? ==>
                var l := Lump(Nop(offset, len), [], []);
                && (r.InBody? <==> BodySide(offset))
                && SortedSlot(old(if BodySide(offset) then bodyLumps.lumps else addRm.lumps), offset, r.k)
                && addRm.lumps == old(if BodySide(offset) then addRm.lumps else Linked(addRm.lumps, l))
                && bodyLumps.lumps == old(if BodySide(offset) then Linked(bodyLumps.lumps, l) else bodyLumps.lumps)
      ensures Valid()
    {
      if offset > |buf| {
        return Aborted;
      }
      var l := Lump(Nop(offset, len), [], []);
      LinkedBounds(addRm.lumps, l, |buf|);
      LinkedBounds(bodyLumps.lumps, l, |buf|);
      r := Link(l);
    }

    /** del_lump or anchor_lump on a span of the headers, then insert_new_lump_before or
        insert_new_lump_after on the result. */
    method QueueEdit(span: Span, delete: bool, before: bool, text: string) returns (k: nat)
      requires Valid() && !BodySide(span.offset) && span.offset + span.len <= |buf|
      modifies addRm, bodyLumps
      ensures Valid() && bodyLumps.lumps == old(bodyLumps.lumps)
      ensures addRm.lumps == old(Linked(addRm.lumps,
                               Edit(span, delete, if before then [Add(text)] else [],
                                   if before then [] else [Add(text)])))
      ensures SortedSlot(old(addRm.lumps), span.offset, k)
    {
      hide Sorted, InBounds, Linked;
      ghost var hs := addRm.lumps;
      ghost var l := Edit(span, delete, if before then [Add(text)] else [], if before then [] else [Add(text)]);
      var r;
      if delete {
        r := DelLump(span.offset, span.len);
      } else {
        r := AnchorLump(span.offset, 0);
      }
      k := r.k;
      QueuedOnNew(hs, Edit(span, delete, [], []), l, k);
      PutFirst([], Add(text));
      assert [Add(text)] + [] == [Add(text)];
      if before {
        addRm.InsertBefore(k, 0, Add(text));
      } else {
        addRm.InsertAfter(k, 0, Add(text));
      }
      ChangedChains(hs, l, k, |buf|);
    }

    /** Queueing on a lump just linked is linking the lump with its text. */
    static lemma QueuedOnNew(hs: seq<Lump>, bare: Lump, l: Lump, k: nat)
      requires bare.Anchored() && l.op == bare.op && SortedSlot(hs, l.op.offset, k)
      ensures k < |Linked(hs, bare)| && Linked(hs, bare)[k] == bare
      ensures Linked(hs, bare)[k := l] == Linked(hs, l)
    {
      LinkedAt(hs, bare, k);
      LinkedAt(hs, l, k);
    }

    static lemma ChangedChains(hs: seq<Lump>, l: Lump, k: nat, n: nat)
      requires l.Anchored() && Sorted(hs) && InBounds(hs, n) && l.Beyond() <= n && SortedSlot(hs, l.op.offset, k)
      ensures Sorted(Linked(hs, l)) && InBounds(Linked(hs, l), n)
    {
      LinkedAt(hs, l, k);
      SlotKeepsOrder(hs, l, k);
      LinkedBounds(hs, l, n);
    }

    /** adjust_clen: queues a Content-Length line that states the length of the body as it
        will be written. `unparsed` is the end of the headers, `b` the start of the body. */
    method AdjustClen(env: Env, delta: u32, proto: Proto, clen: Option<Span>, unparsed: nat, b: nat)
      requires Valid() && b <= |buf| && HeaderSpan(unparsed, 0, 0, b)
      requires clen.Some? ==> HeaderSpan(clen.value.offset, clen.value.len, 0, b)
      requires delta == Wrap(Delta(env, bodyLumps.lumps, 0))
      requires 0 <= |buf| - b + Delta(env, bodyLumps.lumps, 0) < 0x8000_0000
      modifies addRm, bodyLumps
      ensures Valid() && bodyLumps.lumps == old(bodyLumps.lumps)
      ensures addRm.lumps == WithClen(old(addRm.lumps), NeedsClen(delta, proto, clen), clen, unparsed,
                                      |buf| - b + Delta(env, bodyLumps.lumps, 0))
    {
      hide Delta, ClenLine, Wrap, Signed, Linked, Sorted, InBounds;
      var value := Signed(Wrap(|buf| - b + delta));
      ClenValue(|buf| - b, Delta(env, bodyLumps.lumps, 0));
      var anchored := false;
      if (proto.Tcp? || proto.Tls?) && clen.None? {
        var _ := QueueEdit(Span(unparsed, 0), false, false, ClenLine(value));
        anchored := true;
      }
      if !anchored && delta != 0 {
        if clen.None? {
          if !proto.Udp? {
            var _ := QueueEdit(Span(unparsed, 0), false, false, ClenLine(value));
          }
        } else {
          var _ := QueueEdit(clen.value, true, false, ClenLine(value));
        }
      }
    }

    static lemma ClenValue(rest: int, delta: int)
      requires 0 <= rest + delta < 0x8000_0000
      ensures Signed(Wrap(rest + Wrap(delta))) == rest + delta
    {
    }

    /** The via lumps of build_req_buf_from_sip_req. */
    method AddViaLumps(viaAt: nat, viaLine: string, paramsAt: nat, received: Option<ParamEdit>,
        rport: Option<ParamEdit>)
      requires Valid() && HeaderSpan(viaAt, 0, 0, |buf|) && HeaderSpan(paramsAt, 0, 0, |buf|)
      requires ParamOk(received, 0, |buf|) && ParamOk(rport, 0, |buf|)
      modifies addRm, bodyLumps
      ensures Valid() && bodyLumps.lumps == old(bodyLumps.lumps)
      ensures addRm.lumps == WithVia(old(addRm.lumps), viaAt, viaLine, paramsAt, received, rport)
    {
      hide Linked, Sorted, InBounds;
      var _ := QueueEdit(Span(viaAt, 0), false, true, viaLine);
      ghost var h := addRm.lumps;
      if received.Some? {
        var r := received.value;
        var k := QueueParam(r, paramsAt);
        if rport.Some? {
          if rport.value.existing.None? {
            ghost var one, both := [Add(r.text)], [Add(rport.value.text), Add(r.text)];
            QueuedOnNew(h, ParamLump(r, paramsAt, one), ParamLump(r, paramsAt, both), k);
            PutFirst(one, Add(rport.value.text));
            assert [Add(rport.value.text)] + one == both;
            addRm.InsertAfter(k, 0, Add(rport.value.text));
            ChangedChains(h, ParamLump(r, paramsAt, both), k, |buf|);
          } else {
            var _ := QueueParam(rport.value, paramsAt);
          }
        }
      } else if rport.Some? {
        var _ := QueueParam(rport.value, paramsAt);
      }
    }

    method QueueParam(p: ParamEdit, paramsAt: nat) returns (k: nat)
      requires Valid() && HeaderSpan(paramsAt, 0, 0, |buf|) && ParamOk(Some(p), 0, |buf|)
      modifies addRm, bodyLumps
      ensures Valid() && bodyLumps.lumps == old(bodyLumps.lumps)
      ensures addRm.lumps == Linked(old(addRm.lumps), ParamLump(p, paramsAt, [Add(p.text)]))
      ensures SortedSlot(old(addRm.lumps), ParamLump(p, paramsAt, []).op.offset, k)
    {
      if p.existing.Some? {
        k := QueueEdit(p.existing.value, true, false, p.text);
      } else {
        k := QueueEdit(Span(paramsAt, 0), false, false, p.text);
      }
    }

    static lemma PutFirst(cs: seq<Chunk>, c: Chunk)
      ensures cs[..0] + [c] + cs[0..] == [c] + cs
    {
    }

    /** The edits of a forwarded request: those queued before, the Path, the Content-Length line
        if one is needed, the Via line and its parameters. */
    static function RequestEdits(hs: seq<Lump>, path: Option<(nat, string)>, need: bool, clen: Option<Span>,
                                 unparsed: nat, n: nat, viaAt: nat, viaLine: string, paramsAt: nat,
                                 received: Option<ParamEdit>, rport: Option<ParamEdit>): seq<Lump> {
      WithVia(WithClen(WithPath(hs, path), need, clen, unparsed, n), viaAt, viaLine, paramsAt, received, rport)
    }

    /** The edits build_req_buf_from_sip_req queues itself: the Path as a Route header, the
        Content-Length line, the local Via line and the received and rport parameters.
        `paramsAt` is the end of host:port in the first Via. Returns the body's length change. */
    method AddRequestLumps(env: Env, proto: Proto, path: Option<(nat, string)>, clen: Option<Span>, unparsed: nat,
                           viaAt: nat, viaLine: string, paramsAt: nat, received: Option<ParamEdit>,
                           rport: Option<ParamEdit>, b: nat, ghost w: nat)
      returns (bodyDelta: u32)
      requires Zoned(w, b) && HeaderSpan(unparsed, 0, w, b) && HeaderSpan(viaAt, 0, w, b)
          && HeaderSpan(paramsAt, 0, w, b)
      requires path.Some? ==> HeaderSpan(path.value.0, 0, w, b)
      requires clen.Some? ==> HeaderSpan(clen.value.offset, clen.value.len, w, b)
      requires ParamOk(received, w, b) && ParamOk(rport, w, b)
      requires 0 <= |buf| - b + Delta(env, bodyLumps.lumps, 0) < 0x8000_0000
      modifies addRm, bodyLumps
      ensures Zoned(w, b) && bodyLumps.lumps == Fix(old(bodyLumps.lumps), 0)
      ensures Delta(env, bodyLumps.lumps, 0) == old(Delta(env, bodyLumps.lumps, 0))
      ensures bodyDelta == Wrap(Delta(env, bodyLumps.lumps, 0))
      ensures addRm.lumps == RequestEdits(old(addRm.lumps), path, NeedsClen(bodyDelta, proto, clen), clen, unparsed,
                                          |buf| - b + Delta(env, bodyLumps.lumps, 0),
                                          viaAt, viaLine, paramsAt, received, rport)
      ensures NeedsClen(bodyDelta, proto, clen) ==>
                Carries(addRm.lumps, ClenLine(|buf| - b + Delta(env, bodyLumps.lumps, 0)))
    {
      hide Zones, Carries, Delta, ClenLine, Wrap, Fix, WithVia, WithClen, NeedsClen, Sorted, InBounds;
      ghost var hs := addRm.lumps;
      assert b <= |buf| by { ZoneEnd(w, b); }
      if path.Some? {
        var _ := QueueEdit(Span(path.value.0, 0), false, true, "Route: " + path.value.1 + CRLF);
      }
      PathZones(hs, bodyLumps.lumps, path, w, b, |buf|);
      bodyDelta := MeasureBody(env, w, b);
      ghost var h1, bs, v := addRm.lumps, bodyLumps.lumps, |buf| - b + Delta(env, bodyLumps.lumps, 0);
      AdjustClen(env, bodyDelta, proto, clen, unparsed, b);
      ClenZones(h1, bs, NeedsClen(bodyDelta, proto, clen), clen, unparsed, v, w, b, |buf|);
      ghost var h2 := addRm.lumps;
      AddViaLumps(viaAt, viaLine, paramsAt, received, rport);
      ViaZones(h2, bs, viaAt, viaLine, paramsAt, received, rport, w, b, |buf|);
    }

    lemma ZoneEnd(w: nat, b: nat)
      requires Zoned(w, b)
      ensures b <= |buf|
    {
    }

    /** lumps_len on the body list. */
    method MeasureBody(env: Env, ghost w: nat, ghost b: nat) returns (delta: u32)
      requires Zoned(w, b)
      modifies bodyLumps
      ensures Zoned(w, b) && bodyLumps.lumps == Fix(old(bodyLumps.lumps), 0)
      ensures Delta(env, bodyLumps.lumps, 0) == old(Delta(env, bodyLumps.lumps, 0))
      ensures delta == Wrap(Delta(env, bodyLumps.lumps, 0))
    {
      ghost var bs := bodyLumps.lumps;
      delta := bodyLumps.LumpsLen(env, |buf|);
      FixIdempotent(env, bs, 0);
      AllFromClear(bs, b);
      FixStart(env, bs, 0, b);
      FixSorted(bs, b);
      FixKinds(bs, 0);
    }

    static lemma {:induction false} FixKinds(ls: seq<Lump>, s: nat)
      ensures forall i :: 0 <= i < |ls| ==> Fix(ls, s)[i].Anchored() == ls[i].Anchored()
    {
      if ls != [] { FixKinds(ls[1..], Advance(Repair(ls[0], s), s)); }
    }

    /** Length of the message to send, as an exact integer. */
    ghost function OutLen(env: Env, uri: Option<UriEdit>): int
      reads this, addRm, bodyLumps
    {
      |buf| + Delta(env, bodyLumps.lumps, 0) + Delta(env, addRm.lumps, 0)
      + (if uri.Some? then |uri.value.uri| - uri.value.span.len else 0)
    }

    /** The second half of build_req_buf_from_sip_req (and, without a URI, of
        build_res_buf_from_sip_res): computes the new length, allocates that much, writes
        once. The buffer is filled exactly, with what the queued edits mean. */
    method Render(env: Env, bodyDelta: u32, uri: Option<UriEdit>, ghost b: nat) returns (out: array<char>, newLen: u32)
      requires Zoned(StartOf(uri), b)
      requires bodyLumps.lumps == Fix(bodyLumps.lumps, 0) && bodyDelta == Wrap(Delta(env, bodyLumps.lumps, 0))
      requires OutLen(env, uri) < TWO32
      modifies addRm
      ensures fresh(out) && out.Length == newLen + 1 && out[newLen] == '\0'
      ensures newLen == old(OutLen(env, uri))
      ensures addRm.lumps == Fix(old(addRm.lumps), 0)
      ensures old(Zones(addRm.lumps, bodyLumps.lumps, StartOf(uri), b, |buf|))
      ensures old(InBounds(addRm.lumps + bodyLumps.lumps, |buf|) && Sorted(addRm.lumps + bodyLumps.lumps)
                  && AllFrom(addRm.lumps + bodyLumps.lumps, 0, StartOf(uri)))
      ensures out[..newLen] == Prefix(buf, uri) + old(Weave(env, buf, addRm.lumps + bodyLumps.lumps, 0, StartOf(uri)))
    {
      hide Weave, Delta, Fix, Emit, EmitEnd, Wrap, Zones, Sorted, InBounds, AllFrom, Prefix, Output;
      ghost var hs, bs := addRm.lumps, bodyLumps.lumps;
      RenderFacts(env, hs, bs, uri, b);
      var headerDelta := addRm.LumpsLen(env, |buf|);
      newLen := NewLength(|buf|, bodyDelta, headerDelta, uri, Delta(env, bs, 0), Delta(env, hs, 0));
      out := new char[newLen + 1];
      WriteOut(env, uri, out);
      out[newLen] := '\0';
    }

    method WritePrefix(uri: Option<UriEdit>, out: array<char>) returns (offset: nat, sOffset: nat)
      requires StartOf(uri) <= |buf| && |Prefix(buf, uri)| <= out.Length
      modifies out
      ensures sOffset == StartOf(uri) && offset == |Prefix(buf, uri)| && out[..offset] == Prefix(buf, uri)
    {
      offset, sOffset := 0, 0;
      if uri.Some? {
        CopyInto(out, 0, buf[..uri.value.span.offset]);
        offset := uri.value.span.offset;
        CopyInto(out, offset, uri.value.uri);
        offset := offset + |uri.value.uri|;
        sOffset := uri.value.span.offset + uri.value.span.len;
      }
    }

    /** URI, both write passes and the tail. */
    method WriteOut(env: Env, uri: Option<UriEdit>, out: array<char>)
      requires InBounds(addRm.lumps, |buf|) && InBounds(bodyLumps.lumps, |buf|) && StartOf(uri) <= |buf|
      requires var e := EmitEnd(addRm.lumps, StartOf(uri)); e <= |buf| && EmitEnd(bodyLumps.lumps, e) <= |buf|
      requires |Prefix(buf, uri)| + |Output(env, buf, addRm.lumps, bodyLumps.lumps, StartOf(uri))| < out.Length
      modifies out
      ensures var text := Prefix(buf, uri) + Output(env, buf, addRm.lumps, bodyLumps.lumps, StartOf(uri));
              out[..|text|] == text
    {
      hide Emit, EmitEnd, InBounds, Prefix;
      ghost var w := StartOf(uri);
      ghost var e := EmitEnd(addRm.lumps, w);
      ghost var pre, h := Prefix(buf, uri), Emit(env, buf, addRm.lumps, w);
      ghost var m, tail := Emit(env, buf, bodyLumps.lumps, e), buf[EmitEnd(bodyLumps.lumps, e)..];
      var offset, sOffset := WritePrefix(uri, out);
      offset, sOffset := addRm.ProcessLumps(env, buf, out, offset, sOffset);
      offset, sOffset := bodyLumps.ProcessLumps(env, buf, out, offset, sOffset);
      CopyInto(out, offset, buf[sOffset..]);
      assert pre + h + m + tail == pre + (h + m + tail);
    }

    lemma RenderFacts(env: Env, hs: seq<Lump>, bs: seq<Lump>, uri: Option<UriEdit>, b: nat)
      requires Zones(hs, bs, StartOf(uri), b, |buf|)
      ensures InBounds(hs, |buf|) && Sorted(hs) && InBounds(hs + bs, |buf|) && Sorted(hs + bs)
          && AllFrom(hs + bs, 0, StartOf(uri))
      ensures InBounds(Fix(hs, 0), |buf|) && InBounds(Fix(bs, 0), |buf|) && StartOf(uri) <= |buf|
      ensures var w, e := StartOf(uri), EmitEnd(Fix(hs, 0), StartOf(uri));
        && e <= |buf| && EmitEnd(Fix(bs, 0), e) <= |buf|
        && Output(env, buf, Fix(hs, 0), Fix(bs, 0), w) == Weave(env, buf, hs + bs, 0, w)
        && |Prefix(buf, uri)| + |Output(env, buf, Fix(hs, 0), Fix(bs, 0), w)|
           == |buf| + Delta(env, bs, 0) + Delta(env, hs, 0)
               + (if uri.Some? then |uri.value.uri| - uri.value.span.len else 0)
    {
      hide Weave, Delta, Fix, Emit, EmitEnd;
      ZonesJoin(hs, bs, StartOf(uri), b, |buf|);
      OutputLength(env, buf, hs, bs, StartOf(uri), b);
      OutputMeans(env, buf, hs, bs, StartOf(uri), b);
    }

    /** new_len: unsigned additions whose wrap-arounds cancel out. */
    static method NewLength(len: u32, bodyDelta: u32, headerDelta: u32, uri: Option<UriEdit>, ghost bd: int,
        ghost hd: int)
      returns (newLen: u32)
      requires bodyDelta == Wrap(bd) && headerDelta == Wrap(hd)
      requires 0 <= len + bd + hd + (if uri.Some? then |uri.value.uri| - uri.value.span.len else 0) < TWO32
      ensures newLen == len + bd + hd + (if uri.Some? then |uri.value.uri| - uri.value.span.len else 0)
    {
      newLen := Wrap(len + bodyDelta + headerDelta);
      WrapAdd(bd, len + headerDelta);
      WrapAdd(hd, len + bd);
      assert newLen == Wrap(len + bd + hd);
      if uri.Some? {
        WrapAdd(len + bd + hd, |uri.value.uri| - uri.value.span.len);
        newLen := Wrap(newLen - uri.value.span.len + |uri.value.uri|);
      }
    }

    /** build_req_buf_from_sip_req: what is written is the original with the new URI and all edits
        applied.  It falls into a head and the edited body, and
        whenever a Content-Length line is called for, the head holds one that gives the number
        of body bytes written. */
    method BuildRequest(env: Env, proto: Proto, path: Option<(nat, string)>, clen: Option<Span>, unparsed: nat,
                        viaAt: nat, viaLine: string, paramsAt: nat, received: Option<ParamEdit>,
                        rport: Option<ParamEdit>, uri: Option<UriEdit>, b: nat)
      returns (out: array<char>, newLen: u32, ghost head: string, ghost body: string)
      requires var w := StartOf(uri);
        && Zoned(w, b) && HeaderSpan(unparsed, 0, w, b) && HeaderSpan(viaAt, 0, w, b) && HeaderSpan(paramsAt, 0, w, b)
        && (path.Some? ==> HeaderSpan(path.value.0, 0, w, b))
        && (clen.Some? ==> HeaderSpan(clen.value.offset, clen.value.len, w, b))
        && ParamOk(received, w, b) && ParamOk(rport, w, b)
      requires var delta := Delta(env, bodyLumps.lumps, 0);
        && 0 <= |buf| - b + delta < 0x8000_0000
        && |buf| + delta
           + Delta(env, RequestEdits(addRm.lumps, path, NeedsClen(Wrap(delta), proto, clen), clen, unparsed,
                                     |buf| - b + delta, viaAt, viaLine, paramsAt, received, rport), 0)
           + (if uri.Some? then |uri.value.uri| - uri.value.span.len else 0) < TWO32
      modifies addRm, bodyLumps
      ensures out.Length == newLen + 1 && out[newLen] == '\0' && out[..newLen] == head + body
      ensures bodyLumps.lumps == Fix(old(bodyLumps.lumps), 0) && IsBody(body, env, buf, old(bodyLumps.lumps), b)
      ensures var n := |buf| - b + old(Delta(env, bodyLumps.lumps, 0));
        && n >= 0
        && IsRewrite(out[..newLen], env, buf,
             RequestEdits(old(addRm.lumps), path,
                          NeedsClen(Wrap(old(Delta(env, bodyLumps.lumps, 0))), proto, clen), clen, unparsed, n,
                          viaAt, viaLine, paramsAt, received, rport) + old(bodyLumps.lumps), uri)
      ensures NeedsClen(Wrap(old(Delta(env, bodyLumps.lumps, 0))), proto, clen) ==> Contains(head, ClenLine(|body|))
    {
      hide Zones, Carries, Delta, ClenLine, Wrap, Fix, RequestEdits, NeedsClen, Sorted, InBounds, AllFrom, Weave,
        Contains, Prefix, ParamOk, HeaderSpan, BodyPart;
      var delta := AddRequestLumps(env, proto, path, clen, unparsed, viaAt, viaLine, paramsAt, received, rport, b,
          StartOf(uri));
      ghost var hs, bs := addRm.lumps, old(bodyLumps.lumps);
      ZonesMix(hs, Fix(bs, 0), old(addRm.lumps), bs, StartOf(uri), b, |buf|);
      FixIdempotent(env, bs, 0);
      BodyRepairKeepsMeaning(env, buf, hs, bs, StartOf(uri), b);
      head, body := HeadAndBody(env, buf, hs, bs, uri, b, NeedsClen(delta, proto, clen));
      out, newLen := Render(env, delta, uri, b);
    }

    static lemma ZonesMix(hs: seq<Lump>, fs: seq<Lump>, was: seq<Lump>, bs: seq<Lump>, w: nat, b: nat, n: nat)
      requires Zones(hs, fs, w, b, n) && Zones(was, bs, w, b, n)
      ensures Zones(hs, bs, w, b, n)
    {
    }

    /** The head and the body that the queued edits mean. */
    static lemma HeadAndBody(env: Env, orig: string, hs: seq<Lump>, bs: seq<Lump>, uri: Option<UriEdit>, b: nat,
        needsClen: bool)
      returns (head: string, body: string)
      requires Zones(hs, bs, StartOf(uri), b, |orig|) && 0 <= |orig| - b + Delta(env, bs, 0)
      requires needsClen ==> Carries(hs, ClenLine(|orig| - b + Delta(env, bs, 0)))
      ensures InBounds(hs + bs, |orig|) && Sorted(hs + bs) && AllFrom(hs + bs, 0, StartOf(uri))
          && StartOf(uri) <= |orig|
      ensures Sorted(bs) && InBounds(bs, |orig|) && AllFrom(bs, 0, b) && b <= |orig|
      ensures head + body == Prefix(orig, uri) + Weave(env, orig, hs + bs, 0, StartOf(uri))
      ensures body == BodyPart(env, orig, bs, b)
      ensures needsClen ==> Contains(head, ClenLine(|body|))
    {
      hide Carries, Delta, ClenLine, Fix, Weave, Contains, Prefix, Emit, EmitEnd;
      var w := StartOf(uri);
      OutputMeans(env, orig, hs, bs, w, b);
      OutputSplits(env, orig, hs, bs, w, b);
      var h := HeaderPart(env, orig, Fix(hs, 0), w, b);
      head, body := Prefix(orig, uri) + h, BodyPart(env, orig, bs, b);
      assert head + body == Prefix(orig, uri) + (h + body);
      if needsClen {
        ContentLengthIsRight(env, orig, hs, bs, w, b);
        ContainsWithin(Prefix(orig, uri), h, "", ClenLine(|body|));
        assert Prefix(orig, uri) + h + "" == head;
      }
    }

    /** The edits build_res_buf_from_sip_res queues itself: the Content-Length line and the
        removal of the first Via. */
    method AddReplyLumps(env: Env, proto: Proto, clen: Option<Span>, unparsed: nat, via: Span, b: nat, ghost w: nat)
      returns (bodyDelta: u32)
      requires Zoned(w, b) && HeaderSpan(unparsed, 0, w, b) && HeaderSpan(via.offset, via.len, w, b)
      requires clen.Some? ==> HeaderSpan(clen.value.offset, clen.value.len, w, b)
      requires 0 <= |buf| - b + Delta(env, bodyLumps.lumps, 0) < 0x8000_0000
      modifies addRm, bodyLumps
      ensures Zoned(w, b) && bodyLumps.lumps == Fix(old(bodyLumps.lumps), 0)
      ensures Delta(env, bodyLumps.lumps, 0) == old(Delta(env, bodyLumps.lumps, 0))
      ensures bodyDelta == Wrap(Delta(env, bodyLumps.lumps, 0))
      ensures addRm.lumps == Linked(WithClen(old(addRm.lumps), NeedsClen(bodyDelta, proto, clen), clen, unparsed,
                                             |buf| - b + Delta(env, bodyLumps.lumps, 0)),
                                    Edit(via, true, [], []))
      ensures NeedsClen(bodyDelta, proto, clen) ==>
                Carries(addRm.lumps, ClenLine(|buf| - b + Delta(env, bodyLumps.lumps, 0)))
    {
      hide Zones, Carries, Delta, ClenLine, Wrap, Fix, Linked, WithClen, NeedsClen, Sorted, InBounds;
      assert b <= |buf| by { ZoneEnd(w, b); }
      bodyDelta := MeasureBody(env, w, b);
      ghost var h1, bs, v := addRm.lumps, bodyLumps.lumps, |buf| - b + Delta(env, bodyLumps.lumps, 0);
      AdjustClen(env, bodyDelta, proto, clen, unparsed, b);
      ClenZones(h1, bs, NeedsClen(bodyDelta, proto, clen), clen, unparsed, v, w, b, |buf|);
      LinkedZones(addRm.lumps, bs, Edit(via, true, [], []), w, b, |buf|);
      LinkedCarriesAll(addRm.lumps, Edit(via, true, [], []));
      WrapId(via.offset + via.len);
      var _ := DelLump(via.offset, via.len);
    }

    /** The original with a 503 status code turned into 500. */
    function Downgraded(code: int, statusAt: nat): string
      requires code == 503 ==> statusAt + 2 < |buf|
    {
      if code == 503 then buf[statusAt + 2 := '0'] else buf
    }

    /** The second half of build_res_buf_from_sip_res.  The status code is patched in the
        output at its place in the input: `PatchHits` says when that is the right byte.  The edits
        may make the message shorter than that: `inside` is false where the program then writes
        behind its buffer, and nothing is promised of the bytes. */
    method RenderReply(env: Env, bodyDelta: u32, code: int, statusAt: nat, ghost b: nat)
      returns (out: array<char>, newLen: u32, inside: bool)
      requires Zoned(0, b) && (code == 503 ==> statusAt + 2 < |buf| && buf[statusAt + 2] == '3')
      requires bodyLumps.lumps == Fix(bodyLumps.lumps, 0) && bodyDelta == Wrap(Delta(env, bodyLumps.lumps, 0))
      requires OutLen(env, None) < TWO32
      modifies addRm
      ensures fresh(out) && out.Length == newLen + 1 && newLen == old(OutLen(env, None))
      ensures inside <==> code != 503 || statusAt + 2 <= newLen
      ensures inside ==> (out[newLen] == '\0' <==> code != 503 || statusAt + 2 < newLen)
      ensures old(InBounds(addRm.lumps + bodyLumps.lumps, |buf|) && Sorted(addRm.lumps + bodyLumps.lumps))
      ensures inside ==>
        var text := old(Weave(env, buf, addRm.lumps + bodyLumps.lumps, 0, 0));
        out[..newLen] == if code == 503 then Patched(text, statusAt + 2, '0') else text
      ensures inside ==>
        (out[..newLen] == old(Weave(env, Downgraded(code, statusAt), addRm.lumps + bodyLumps.lumps, 0, 0))
         <==> code != 503 || old(CodeIsHit(env, buf, addRm.lumps + bodyLumps.lumps, statusAt + 2)))
    {
      hide Weave, Delta, Fix, Wrap, Zones, InBounds, Sorted, AllFrom, PatchHits;
      ghost var ls := addRm.lumps + bodyLumps.lumps;
      ghost var text := Joined(env, buf, addRm.lumps, bodyLumps.lumps, b);
      out, newLen := Render(env, bodyDelta, None, b);
      assert Prefix(buf, None) + text == text;
      inside := code != 503 || statusAt + 2 <= newLen;
      if code == 503 && inside {
        PatchExactly(env, buf, ls, statusAt + 2, '0');
        out[statusAt + 2] := '0';
        assert out[..newLen] == Patched(text, statusAt + 2, '0');
      }
    }

    static lemma Joined(env: Env, orig: string, hs: seq<Lump>, bs: seq<Lump>, b: nat) returns (text: string)
      requires Zones(hs, bs, 0, b, |orig|)
      ensures InBounds(hs + bs, |orig|) && Sorted(hs + bs) && AllFrom(hs + bs, 0, 0)
      ensures text == Weave(env, orig, hs + bs, 0, 0)
    {
      hide Weave;
      ZonesJoin(hs, bs, 0, b, |orig|);
      text := Weave(env, orig, hs + bs, 0, 0);
    }

    /** The edits of a forwarded reply: those queued before, the Content-Length line if one is
        needed, and the removal of the first Via. */
    static function ReplyEdits(hs: seq<Lump>, need: bool, clen: Option<Span>, unparsed: nat, n: nat,
        via: Span): seq<Lump> {
      Linked(WithClen(hs, need, clen, unparsed, n), Edit(via, true, [], []))
    }

    /** build_res_buf_from_sip_res.  A reply as it should be is the original with a 503 turned
        into 500 and all edits applied: a head and the edited body, with a Content-Length line
        that fits the body whenever one is called for.  That is what is written if and only if
        the code is not 503 or the patch hits; `inside` is as in RenderReply. */
    method BuildReply(env: Env, proto: Proto, clen: Option<Span>, unparsed: nat, via: Span, code: int,
                      statusAt: nat, b: nat)
      returns (out: array<char>, newLen: u32, inside: bool, ghost head: string, ghost body: string)
      requires Zoned(0, b) && HeaderSpan(unparsed, 0, 0, b) && HeaderSpan(via.offset, via.len, 0, b)
      requires clen.Some? ==> HeaderSpan(clen.value.offset, clen.value.len, 0, b)
      requires code == 503 ==> statusAt + 2 < |buf| && buf[statusAt + 2] == '3'
      requires var delta := Delta(env, bodyLumps.lumps, 0);
        && 0 <= |buf| - b + delta < 0x8000_0000
        && |buf| + delta
           + Delta(env, ReplyEdits(addRm.lumps, NeedsClen(Wrap(delta), proto, clen), clen, unparsed,
                                   |buf| - b + delta, via), 0) < TWO32
      modifies addRm, bodyLumps
      ensures out.Length == newLen + 1 && bodyLumps.lumps == Fix(old(bodyLumps.lumps), 0)
      ensures inside <==> code != 503 || statusAt + 2 <= newLen
      ensures inside ==> (out[newLen] == '\0' <==> code != 503 || statusAt + 2 < newLen)
      ensures IsBody(body, env, Downgraded(code, statusAt), old(bodyLumps.lumps), b)
      ensures var n := |buf| - b + old(Delta(env, bodyLumps.lumps, 0));
        && n >= 0
        && var hs := ReplyEdits(old(addRm.lumps), NeedsClen(Wrap(old(Delta(env, bodyLumps.lumps, 0))), proto, clen),
                                clen, unparsed, n, via);
           var ls := hs + old(bodyLumps.lumps);
           && newLen == |buf| + old(Delta(env, bodyLumps.lumps, 0)) + Delta(env, hs, 0)
           && IsRewrite(head + body, env, Downgraded(code, statusAt), ls, None)
           && (inside ==>
                 (out[..newLen] == head + body <==> code != 503 || CodeIsHit(env, buf, ls, statusAt + 2)))
      ensures NeedsClen(Wrap(old(Delta(env, bodyLumps.lumps, 0))), proto, clen) ==> Contains(head, ClenLine(|body|))
    {
      hide Zones, Carries, Delta, ClenLine, Wrap, Fix, WithClen, NeedsClen, Sorted, InBounds, AllFrom, Weave, Contains,
        HeaderSpan, BodyPart, Linked, CodeIsHit, Patched;
      var delta := AddReplyLumps(env, proto, clen, unparsed, via, b, 0);
      ghost var hs, bs, orig := addRm.lumps, old(bodyLumps.lumps), Downgraded(code, statusAt);
      ZonesMix(hs, Fix(bs, 0), old(addRm.lumps), bs, 0, b, |buf|);
      FixIdempotent(env, bs, 0);
      ReplyIsRight(env, buf, code, statusAt + 2, hs, bs, b);
      head, body := HeadAndBody(env, orig, hs, bs, None, b, NeedsClen(delta, proto, clen));
      ghost var w := Weave(env, orig, hs + bs, 0, 0);
      assert Prefix(orig, None) + w == w;
      out, newLen, inside := RenderReply(env, delta, code, statusAt, b);
    }

    /** The bytes RenderReply writes against the reply as it should be. */
    static lemma ReplyIsRight(env: Env, orig: string, code: int, p: nat, hs: seq<Lump>, bs: seq<Lump>, b: nat)
      requires Zones(hs, bs, 0, b, |orig|) && Zones(hs, Fix(bs, 0), 0, b, |orig|)
      requires code == 503 ==> p < |orig| && orig[p] == '3'
      ensures InBounds(hs + bs, |orig|) && Sorted(hs + bs) && AllFrom(hs + bs, 0, 0)
      ensures var fs := hs + Fix(bs, 0); InBounds(fs, |orig|) && Sorted(fs) && AllFrom(fs, 0, 0)
      ensures var text := Weave(env, orig, hs + Fix(bs, 0), 0, 0);
        (if code == 503 then Patched(text, p, '0') else text)
        == Weave(env, if code == 503 then orig[p := '0'] else orig, hs + bs, 0, 0)
        <==> code != 503 || CodeIsHit(env, orig, hs + bs, p)
    {
      hide Weave, Fix, Patched, PatchHits, Zones, Sorted, InBounds, AllFrom;
      BodyRepairKeepsMeaning(env, orig, hs, bs, 0, b);
      if code == 503 { PatchExactly(env, orig, hs + bs, p, '0'); }
    }
  }
}
