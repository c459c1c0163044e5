/**
  Local replies: the list of reply lumps, and building a reply from a request in two passes,
  one that computes its length and one that writes it.
*/
module ReplyBuilder {
  import opened Words
  import opened Decimal
  import opened Rewrite

  // --- reply lumps ---

  const RPL_HDR: bv32 := 2
  const RPL_BODY: bv32 := 4
  const RPL_SHMEM: bv32 := 32

  /** A reply lump at its address. */
  datatype Lump = Lump(at: nat, text: string, flags: bv32)

  predicate IsHdr(l: Lump) {
    l.flags & RPL_HDR != 0
  }

  predicate IsBody(l: Lump) {
    l.flags & RPL_BODY != 0
  }

  /** Every lump is a header or a body, not both, there is at most one body, and no lump is
      linked twice. */
  predicate WellFormed(ls: seq<Lump>) {
    && (forall i, j :: 0 <= i < j < |ls| ==> ls[i].at != ls[j].at)
    && (forall i :: 0 <= i < |ls| ==> ls[i].text != "" && (IsHdr(ls[i]) <==> !IsBody(ls[i])))
    && (forall i, j :: 0 <= i < |ls| && 0 <= j < |ls| && IsBody(ls[i]) && IsBody(ls[j]) ==> i == j)
  }

  /** Why add_lump_rpl refuses a lump. */
  predicate Refused(ls: seq<Lump>, text: Option<string>, flags: bv32) {
    || flags & (RPL_HDR | RPL_BODY) == RPL_HDR | RPL_BODY
    || flags & (RPL_HDR | RPL_BODY) == 0
    || flags & RPL_SHMEM != 0
    || text.None? || text.value == ""
    || (flags & RPL_BODY != 0 && exists i :: 0 <= i < |ls| && IsBody(ls[i]))
  }

  class ReplyLumps {
    var lumps: seq<Lump>

    constructor ()
      ensures lumps == [] && WellFormed(lumps)
    {
      lumps := [];
    }

    /** add_lump_rpl with a lump allocated at `at`: appends, or refuses and changes nothing. */
    method Add(at: nat, text: Option<string>, flags: bv32) returns (ok: bool)
      requires WellFormed(lumps) && forall i :: 0 <= i < |lumps| ==> lumps[i].at != at
      modifies this
      ensures WellFormed(lumps) && (ok <==> !old(Refused(lumps, text, flags)))
      ensures lumps == if ok then old(lumps) + [Lump(at, text.value, flags)] else old(lumps)
    {
      if flags & (RPL_HDR | RPL_BODY) == RPL_HDR | RPL_BODY || flags & (RPL_HDR | RPL_BODY) == 0
        || flags & RPL_SHMEM != 0 || text.None? || text.value == "" {
        return false;
      }
      OneKind(flags);
      hide IsHdr;
      if flags & RPL_BODY != 0 {
        var i := 0;
        while i < |lumps|
          invariant i <= |lumps| && lumps == old(lumps)
          invariant forall j :: 0 <= j < i ==> !IsBody(lumps[j])
        {
          if IsBody(lumps[i]) {
            return false;
          }
          i := i + 1;
        }
      }
      assert IsHdr(Lump(at, text.value, flags)) <==> !IsBody(Lump(at, text.value, flags));
      lumps := lumps + [Lump(at, text.value, flags)];
      ok := true;
    }

    static lemma OneKind(flags: bv32)
      requires flags & (RPL_HDR | RPL_BODY) != RPL_HDR | RPL_BODY && flags & (RPL_HDR | RPL_BODY) != 0
      ensures flags & RPL_HDR != 0 <==> flags & RPL_BODY == 0
    {
    }

    /** unlink_lump_rpl: takes out the lump at this address; does nothing if there is none. */
    method Unlink(at: nat)
      requires WellFormed(lumps)
      modifies this
      ensures WellFormed(lumps)
      ensures forall l :: l in lumps <==> l in old(lumps) && l.at != at
      ensures lumps == old(lumps) ||
        exists k :: 0 <= k < |old(lumps)| && old(lumps)[k].at == at && lumps == old(lumps[..k] + lumps[k + 1..])
    {
      hide IsHdr, IsBody;
      var k := 0;
      while k < |lumps| && lumps[k].at != at
        invariant k <= |lumps| && forall i :: 0 <= i < k ==> lumps[i].at != at
      {
        k := k + 1;
      }
      if k < |lumps| {
        TakeOut(k);
      }
    }

    /** Unlinks the lump at position k. */
    method TakeOut(k: nat)
      requires WellFormed(lumps) && k < |lumps|
      modifies this
      ensures WellFormed(lumps) && lumps == old(lumps[..k] + lumps[k + 1..])
      ensures forall l :: l in lumps <==> l in old(lumps) && l.at != old(lumps[k].at)
    {
      hide IsHdr, IsBody;
      ghost var was := lumps;
      lumps := lumps[..k] + lumps[k + 1..];
      assert forall i :: 0 <= i < |lumps| ==> lumps[i] == if i < k then was[i] else was[i + 1];
      forall l | l in was && l.at != was[k].at
        ensures l in lumps
      {
        var i :| 0 <= i < |was| && was[i] == l;
        assert lumps[if i < k then i else i - 1] == l;
      }
    }

    /** del_nonshm_lump_rpl: unlinks all but the lumps in shared memory, in place. */
    method DeleteNonShm()
      requires WellFormed(lumps)
      modifies this
      ensures WellFormed(lumps) && lumps == ShmOnly(old(lumps))
    {
      hide WellFormed, ShmOnly;
      var i := 0;
      ghost var was, done := lumps, 0;
      ShmOnlySnoc(was, 0);
      while i < |lumps|
        invariant i <= |lumps| && done <= |was| && WellFormed(lumps)
        invariant lumps[..i] == ShmOnly(was[..done]) && lumps[i..] == was[done..]
        decreases |lumps| - i
      {
        assert lumps[i] == lumps[i..][0] == was[done..][0] == was[done];
        assert lumps[i + 1..] == lumps[i..][1..] == was[done..][1..] == was[done + 1..];
        ShmOnlySnoc(was, done);
        if lumps[i].flags & RPL_SHMEM == 0 {
          TakeOut(i);
        } else {
          assert lumps[..i + 1] == lumps[..i] + [lumps[i]];
          i := i + 1;
        }
        done := done + 1;
      }
      assert was[..done] == was && lumps[..i] == lumps;
    }
  }

  lemma ShmOnlySnoc(ls: seq<Lump>, k: nat)
    requires k <= |ls|
    ensures k == 0 ==> ShmOnly(ls[..k]) == []
    ensures k < |ls| ==>
              ShmOnly(ls[..k + 1]) == ShmOnly(ls[..k]) + (if ls[k].flags & RPL_SHMEM != 0 then [ls[k]] else [])
  {
    if k < |ls| { assert ls[..k + 1][..k] == ls[..k]; }
  }

  function ShmOnly(ls: seq<Lump>): seq<Lump> {
    if ls == [] then []
    else ShmOnly(ls[..|ls| - 1]) + (if ls[|ls| - 1].flags & RPL_SHMEM != 0 then [ls[|ls| - 1]] else [])
  }

  function LumpsLen(ls: seq<Lump>): nat {
    if ls == [] then 0 else LumpsLen(ls[..|ls| - 1]) + |ls[|ls| - 1].text|
  }

  function HdrLumps(ls: seq<Lump>): string {
    if ls == [] then ""
    else HdrLumps(ls[..|ls| - 1]) + (if IsHdr(ls[|ls| - 1]) then ls[|ls| - 1].text else "")
  }

  /** The last body lump. */
  function BodyLump(ls: seq<Lump>): Option<Lump> {
    if ls == [] then None
    else if IsBody(ls[|ls| - 1]) then Some(ls[|ls| - 1])
    else BodyLump(ls[..|ls| - 1])
  }

  function BodyText(ls: seq<Lump>): string {
    match BodyLump(ls)
    case Some(l) => l.text
    case None => ""
  }

  lemma {:induction false} BodyLumpIs(ls: seq<Lump>)
    ensures BodyLump(ls).None? <==> forall i :: 0 <= i < |ls| ==> !IsBody(ls[i])
    ensures BodyLump(ls).Some? ==> IsBody(BodyLump(ls).value) && BodyLump(ls).value in ls
  {
    hide IsBody;
    if ls != [] {
      BodyLumpIs(ls[..|ls| - 1]);
    }
  }

  /** All lumps are counted once; headers and body are written once each. */
  lemma {:induction false} LumpsAgree(ls: seq<Lump>)
    requires WellFormed(ls)
    ensures LumpsLen(ls) == |HdrLumps(ls)| + |BodyText(ls)|
  {
    hide IsHdr, IsBody;
    if ls != [] {
      var init, l := ls[..|ls| - 1], ls[|ls| - 1];
      LumpsAgree(init);
      BodyLumpIs(init);
      if IsBody(l) {
        assert ls[|ls| - 1] == l;
        assert forall i :: 0 <= i < |init| ==> init[i] == ls[i] && !IsBody(ls[i]);
      }
    }
  }

  // --- the request ---

  datatype Kind = To | Via | RecordRoute | From | CallId | CSeq | Other

  /** A parsed header: offset of its name, length with its line end, end of its body. */
  datatype Hdr = Hdr(kind: Kind, name: nat, len: nat, bodyEnd: nat)

  datatype Request = Request(raw: string, headers: seq<Hdr>, via1: nat, rport: Option<Span>, toTag: Option<Span>)

  predicate InHeader(h: Hdr, r: Span) {
    h.name < r.offset && r.offset + r.len <= h.bodyEnd
  }

  /** What the parser says of a request: headers lie in the message, one To, a first Via, and
      the To tag and the rport parameter lie inside them. */
  predicate Parsed(q: Request) {
    && (forall i :: 0 <= i < |q.headers| ==>
          var h := q.headers[i]; h.name <= h.bodyEnd <= h.name + h.len <= |q.raw|)
    && q.via1 < |q.headers| && q.headers[q.via1].kind == Via
    && (q.rport.Some? ==> InHeader(q.headers[q.via1], q.rport.value))
    && (forall i, j | 0 <= i < |q.headers| && 0 <= j < |q.headers| ::
          q.headers[i].kind == To && q.headers[j].kind == To ==> i == j)
    && (q.toTag.Some? ==> q.toTag.value.offset + q.toTag.value.len <= |q.raw|)
    && (forall i :: 0 <= i < |q.headers| && q.headers[i].kind == To && q.toTag.Some? ==>
          InHeader(q.headers[i], q.toTag.value))
  }

  /** The reply wanted, and the texts of the helper builders where they are called for. */
  datatype Reply = Reply(code: nat, reason: string, newTag: Option<string>, forceRport: bool, rportText: string,
                         received: Option<string>, server: Option<string>, warning: Option<string>)

  const SIP_VERSION := "SIP/2.0"
  const TAG_TOKEN := ";tag="

  function NewTag(r: Reply): string {
    if r.newTag.Some? then r.newTag.value else ""
  }

  /** rport_buf. */
  function RportBuf(q: Request, r: Reply): Option<string> {
    if r.forceRport || q.rport.Some? then Some(r.rportText) else None
  }

  function TextOr(o: Option<string>): string {
    if o.Some? then o.value else ""
  }

  function Line(o: Option<string>): string {
    if o.Some? then o.value + CRLF else ""
  }

  predicate ReplacesTag(q: Request) {
    q.toTag.Some? && q.toTag.value.len > 0
  }

  function Slice(q: Request, from: nat, to: nat): string
    requires from <= to <= |q.raw|
  {
    q.raw[from..to]
  }

  function ViaText(q: Request, r: Reply, i: nat): string
    requires Parsed(q) && i < |q.headers|
  {
    var h := q.headers[i];
    (if i == q.via1 && q.rport.Some? then
       Slice(q, h.name, q.rport.value.offset - 1) + r.rportText
       + Slice(q, q.rport.value.offset + q.rport.value.len, h.bodyEnd) + TextOr(r.received)
     else if i == q.via1 then Slice(q, h.name, h.bodyEnd) + TextOr(RportBuf(q, r)) + TextOr(r.received)
     else Slice(q, h.name, h.bodyEnd)) + CRLF
  }

  function ToText(q: Request, r: Reply, i: nat): string
    requires Parsed(q) && i < |q.headers| && q.headers[i].kind == To
  {
    var h := q.headers[i];
    if NewTag(r) == "" then Slice(q, h.name, h.name + h.len)
    else TagLead(q, i) + NewTag(r) + TagRest(q, i)
  }

  /** The To header up to where a new tag goes. */
  function TagLead(q: Request, i: nat): string
    requires Parsed(q) && i < |q.headers| && q.headers[i].kind == To
  {
    var h := q.headers[i];
    if ReplacesTag(q) then Slice(q, h.name, q.toTag.value.offset) else Slice(q, h.name, h.bodyEnd) + TAG_TOKEN
  }

  function TagRest(q: Request, i: nat): string
    requires Parsed(q) && i < |q.headers| && q.headers[i].kind == To
  {
    var h := q.headers[i];
    if ReplacesTag(q) then Slice(q, q.toTag.value.offset + q.toTag.value.len, h.name + h.len)
    else Slice(q, h.bodyEnd, h.name + h.len)
  }

  /** What the reply holds of header i. */
  function HeaderText(q: Request, r: Reply, i: nat): string
    requires Parsed(q) && i < |q.headers|
  {
    var h := q.headers[i];
    match h.kind
    case Via => ViaText(q, r, i)
    case To => ToText(q, r, i)
    case RecordRoute => if 180 <= r.code < 300 then Slice(q, h.name, h.name + h.len) else ""
    case Other => ""
    case _ => Slice(q, h.name, h.name + h.len)
  }

  function HeadersText(q: Request, r: Reply, k: nat): string
    requires Parsed(q) && k <= |q.headers|
  {
    if k == 0 then "" else HeadersText(q, r, k - 1) + HeaderText(q, r, k - 1)
  }

  /** What the length pass adds for header i. */
  function HeaderLen(q: Request, r: Reply, i: nat): int
    requires i < |q.headers|
  {
    var h := q.headers[i];
    match h.kind
    case To =>
      h.len + (if NewTag(r) == "" then 0
               else if ReplacesTag(q) then |NewTag(r)| - q.toTag.value.len
               else |NewTag(r)| + |TAG_TOKEN|)
    case Via =>
      h.bodyEnd - h.name + |CRLF|
      + (if i == q.via1 then |TextOr(r.received)| + |TextOr(RportBuf(q, r))| else 0)
    case RecordRoute => if 180 <= r.code < 300 then h.len else 0
    case Other => 0
    case _ => h.len
  }

  function HeadersLen(q: Request, r: Reply, k: nat): int
    requires k <= |q.headers|
  {
    if k == 0 then 0 else HeadersLen(q, r, k - 1) + HeaderLen(q, r, k - 1)
  }

  /** What the length pass takes off beforehand for the rport it will replace. */
  function RportCut(q: Request): int {
    if q.rport.Some? then q.rport.value.len + 1 else 0
  }

  lemma HeaderAgrees(q: Request, r: Reply, i: nat)
    requires Parsed(q) && i < |q.headers|
    ensures HeaderLen(q, r, i) == |HeaderText(q, r, i)| + (if i == q.via1 then RportCut(q) else 0)
  {
  }

  lemma {:induction false} HeadersAgree(q: Request, r: Reply, k: nat)
    requires Parsed(q) && k <= |q.headers|
    ensures HeadersLen(q, r, k) == |HeadersText(q, r, k)| + (if q.via1 < k then RportCut(q) else 0)
  {
    hide Parsed, HeaderText, HeaderLen, RportCut;
    if k > 0 {
      HeadersAgree(q, r, k - 1);
      HeaderAgrees(q, r, k - 1);
    }
  }

  // --- the reply ---

  /** The last three decimal digits of the code. */
  function CodeText(code: nat): (s: string)
    ensures |s| == 3 && AllDigits(s)
  {
    [DigitChar(code / 100 % 10), DigitChar(code / 10 % 10), DigitChar(code % 10)]
  }

  lemma CodeValue(code: nat)
    requires code <= 999
    ensures Value(CodeText(code)) == code
  {
    hide Value;
    ThreeDigits(code);
    ValueOfThree(CodeText(code));
  }

  lemma ThreeDigits(n: int)
    requires 0 <= n <= 999
    ensures n == n / 100 % 10 * 100 + n / 10 % 10 * 10 + n % 10
  {
  }

  lemma ValueOfThree(s: string)
    requires |s| == 3 && AllDigits(s)
    ensures Value(s) == DigitValue(s[0]) * 100 + DigitValue(s[1]) * 10 + DigitValue(s[2])
  {
    assert s[..2][..1] == s[..1] && s[..1][..0] == "";
    assert Value(s[..1]) == DigitValue(s[0]);
  }

  function StatusLine(r: Reply): string {
    SIP_VERSION + " " + CodeText(r.code) + " " + r.reason + CRLF
  }

  /** The length that the Content-Length line states. */
  function BodyLen(body: Option<Lump>): nat {
    if body.Some? then |body.value.text| else 0
  }

  /** Everything between the copied headers and the body. */
  function Trailer(r: Reply, ls: seq<Lump>): string {
    HdrLumps(ls) + Line(r.server) + ClenLine(BodyLen(BodyLump(ls))) + Line(r.warning) + CRLF
  }

  function ReplyText(q: Request, r: Reply, ls: seq<Lump>): string
    requires Parsed(q)
  {
    StatusLine(r) + HeadersText(q, r, |q.headers|) + Trailer(r, ls) + BodyText(ls)
  }

  /** The sum of the length pass. */
  function ReplyLen(q: Request, r: Reply, ls: seq<Lump>): int {
    - RportCut(q) + |SIP_VERSION| + 1 + 3 + 1 + |r.reason| + |CRLF|
    + HeadersLen(q, r, |q.headers|) + LumpsLen(ls) + |Line(r.server)| + |Line(r.warning)|
    + |ClenLine(BodyLen(BodyLump(ls)))| + |CRLF|
  }

  /** The length pass and the write pass agree. */
  lemma PassesAgree(q: Request, r: Reply, ls: seq<Lump>)
    requires Parsed(q) && WellFormed(ls)
    ensures ReplyLen(q, r, ls) == |ReplyText(q, r, ls)|
  {
    hide HeadersText, HeadersLen, LumpsLen, HdrLumps, BodyText, BodyLump, ClenLine, Line, RportCut, CodeText;
    HeadersAgree(q, r, |q.headers|);
    LumpsAgree(ls);
  }

  /** The reply ends in an empty line and the body, and its Content-Length line gives the
      number of bytes of that body. */
  lemma BodyIsAnnounced(q: Request, r: Reply, ls: seq<Lump>) returns (head: string, digits: string)
    requires Parsed(q) && WellFormed(ls)
    ensures ReplyText(q, r, ls) == head + CRLF + BodyText(ls)
    ensures AllDigits(digits) && Value(digits) == |BodyText(ls)|
        && ClenLine(|BodyText(ls)|) == "Content-Length: " + digits + CRLF
    ensures Contains(head, ClenLine(|BodyText(ls)|))
  {
    hide HeadersText, HdrLumps, BodyLump, Line, StatusLine, Numeral, Value;
    digits := Numeral(|BodyText(ls)|);
    NumeralValue(|BodyText(ls)|);
    var pre := StatusLine(r) + HeadersText(q, r, |q.headers|) + (HdrLumps(ls) + Line(r.server));
    var line := ClenLine(|BodyText(ls)|);
    hide ClenLine;
    head := pre + line + Line(r.warning);
    assert ClenLine(BodyLen(BodyLump(ls))) == line;
    assert head + CRLF + BodyText(ls) == ReplyText(q, r, ls);
    assert head[|pre|..|pre| + |line|] == line;
    assert OccursAt(head, line, |pre|);
  }

  /** Header i sits in the reply where the headers before it end. */
  lemma {:induction false} HeaderIn(q: Request, r: Reply, i: nat, k: nat)
    requires Parsed(q) && i < k <= |q.headers|
    ensures var at := |HeadersText(q, r, i)|; var text := HeaderText(q, r, i);
      at + |text| <= |HeadersText(q, r, k)| && HeadersText(q, r, k)[at..at + |text|] == text
    decreases k
  {
    hide Parsed, HeaderText;
    if i < k - 1 {
      HeaderIn(q, r, i, k - 1);
    }
  }

  /** Where the bookmark points, relative to the text of the To header: at its tag. */
  function TagAt(q: Request, r: Reply, i: nat): Option<Span>
    requires Parsed(q) && i < |q.headers| && q.headers[i].kind == To
  {
    if NewTag(r) != "" then Some(Span(|TagLead(q, i)|, |NewTag(r)|))
    else if q.toTag.Some? then Some(Span(q.toTag.value.offset - q.headers[i].name, q.toTag.value.len))
    else None
  }

  /** The tag the reply carries. */
  function TagText(q: Request, r: Reply): string
    requires Parsed(q)
  {
    if NewTag(r) != "" then NewTag(r)
    else if q.toTag.Some? then Slice(q, q.toTag.value.offset, q.toTag.value.offset + q.toTag.value.len)
    else ""
  }

  lemma TagIsThere(q: Request, r: Reply, i: nat)
    requires Parsed(q) && i < |q.headers| && q.headers[i].kind == To
    ensures TagAt(q, r, i).Some? ==>
      var t := TagAt(q, r, i).value;
      OccursAt(HeaderText(q, r, i), TagText(q, r), t.offset) && t.len == |TagText(q, r)|
  {
    hide Parsed, ViaText;
    var h, text := q.headers[i], HeaderText(q, r, i);
    InMessage(q, i);
    if NewTag(r) != "" {
      var at := |TagLead(q, i)|;
      assert text == TagLead(q, i) + NewTag(r) + TagRest(q, i);
      assert text[at..at + |NewTag(r)|] == NewTag(r);
    } else if q.toTag.Some? {
      var at := q.toTag.value.offset - h.name;
      assert text == q.raw[h.name..h.name + h.len];
      assert text[at..at + q.toTag.value.len] == TagText(q, r);
    }
  }

  /** The To header lies in the message, and its tag in the header. */
  lemma InMessage(q: Request, i: nat)
    requires Parsed(q) && i < |q.headers| && q.headers[i].kind == To
    ensures var h := q.headers[i];
      && h.name <= h.bodyEnd <= h.name + h.len <= |q.raw|
      && (q.toTag.Some? ==> h.name < q.toTag.value.offset && q.toTag.value.offset + q.toTag.value.len <= h.bodyEnd)
  {
  }

  /** What bmark holds once the first k headers are written, the first at `start`. */
  function Mark(q: Request, r: Reply, start: nat, k: nat): Option<Span>
    requires Parsed(q) && k <= |q.headers|
  {
    if k == 0 then None
    else if q.headers[k - 1].kind != To then Mark(q, r, start, k - 1)
    else match TagAt(q, r, k - 1)
      case None => None
      case Some(t) => Some(Span(start + |HeadersText(q, r, k - 1)| + t.offset, t.len))
  }

  /** The bookmark points at the To tag in the finished reply. */
  lemma {:induction false} MarkFindsTag(q: Request, r: Reply, ls: seq<Lump>, k: nat)
    requires Parsed(q) && k <= |q.headers|
    ensures var m := Mark(q, r, |StatusLine(r)|, k);
      m.Some? ==> OccursAt(ReplyText(q, r, ls), TagText(q, r), m.value.offset) && m.value.len == |TagText(q, r)|
    decreases k
  {
    hide HeaderText, StatusLine, Trailer, BodyText, HeadersText, TagAt, TagText, Parsed;
    if k > 0 && q.headers[k - 1].kind != To {
      MarkFindsTag(q, r, ls, k - 1);
    } else if k > 0 && TagAt(q, r, k - 1).Some? {
      TagIsThere(q, r, k - 1);
      HeaderIn(q, r, k - 1, |q.headers|);
      OccursDeep(StatusLine(r), HeadersText(q, r, |q.headers|), Trailer(r, ls) + BodyText(ls),
        HeaderText(q, r, k - 1), |HeadersText(q, r, k - 1)|, TagText(q, r), TagAt(q, r, k - 1).value.offset);
      assert StatusLine(r) + HeadersText(q, r, |q.headers|) + (Trailer(r, ls) + BodyText(ls)) == ReplyText(q, r, ls);
    }
  }

  lemma OccursDeep(a: string, s: string, b: string, t: string, i: nat, u: string, j: nat)
    requires OccursAt(s, t, i) && OccursAt(t, u, j)
    ensures OccursAt(a + s + b, u, |a| + i + j)
  {
    forall k | 0 <= k < |u|
      ensures u[k] == s[i + j + k]
    {
      assert u[k] == t[j..j + |u|][k] == t[j + k] == s[i..i + |t|][j + k];
    }
    assert u == s[i + j..i + j + |u|];
    assert (a + s + b)[|a| + i + j..|a| + i + j + |u|] == s[i + j..i + j + |u|];
  }

  // --- the two passes as the program makes them ---

  /** The length pass, in unsigned arithmetic. */
  method ComputeLength(q: Request, r: Reply, ls: seq<Lump>) returns (len: u32, body: Option<Lump>)
    ensures len == Wrap(ReplyLen(q, r, ls)) && body == BodyLump(ls)
  {
    hide Wrap, HeaderLen, RportCut, Line, ClenLine, IsBody;
    ghost var sum := 0 - RportCut(q);
    len := Wrap(0 - RportCut(q));
    ghost var first := |SIP_VERSION| + 1 + 3 + 1 + |r.reason| + |CRLF|;
    WrapAdd(sum, first);
    len := Wrap(len + (|SIP_VERSION| + 1 + 3 + 1 + |r.reason| + |CRLF|));
    ghost var base := sum + first;
    var i := 0;
    while i < |q.headers|
      invariant i <= |q.headers| && len == Wrap(base + HeadersLen(q, r, i))
    {
      WrapAdd(base + HeadersLen(q, r, i), HeaderLen(q, r, i));
      len := Wrap(len + HeaderLen(q, r, i));
      i := i + 1;
    }
    base := base + HeadersLen(q, r, |q.headers|);
    body := None;
    i := 0;
    while i < |ls|
      invariant i <= |ls| && len == Wrap(base + LumpsLen(ls[..i])) && body == BodyLump(ls[..i])
    {
      assert ls[..i + 1][..i] == ls[..i];
      WrapAdd(base + LumpsLen(ls[..i]), |ls[i].text|);
      len := Wrap(len + |ls[i].text|);
      if IsBody(ls[i]) {
        body := Some(ls[i]);
      }
      i := i + 1;
    }
    assert ls[..i] == ls;
    base := base + LumpsLen(ls);
    WrapAdd(base, |Line(r.server)| + |Line(r.warning)| + |ClenLine(BodyLen(body))| + |CRLF|);
    len := Wrap(len + (|Line(r.server)| + |Line(r.warning)| + |ClenLine(BodyLen(body))| + |CRLF|));
  }

  /** append_str behind what is `done`. */
  method Append(buf: array<char>, p: nat, text: string, ghost done: string) returns (p': nat)
    requires p == |done| && p + |text| <= buf.Length && buf[..p] == done
    modifies buf
    ensures p' == |done + text| && buf[..p'] == done + text
  {
    CopyInto(buf, p, text);
    p' := p + |text|;
  }

  /** Three append_str in a row. */
  method Append3(buf: array<char>, at: nat, a: string, b: string, c: string, ghost done: string) returns (p: nat)
    requires at == |done| && at + |a| + |b| + |c| <= buf.Length && buf[..at] == done
    modifies buf
    ensures p == |done + (a + b + c)| && buf[..p] == done + (a + b + c)
  {
    p := Append(buf, at, a, done);
    p := Append(buf, p, b, done + a);
    p := Append(buf, p, c, done + a + b);
    assert done + a + b + c == done + (a + b + c);
  }

  /** The first Via up to its received parameter. */
  method WriteVia1(q: Request, r: Reply, buf: array<char>, at: nat, ghost done: string) returns (p: nat)
    requires Parsed(q) && at == |done| && at + |Via1Text(q, r)| <= buf.Length && buf[..at] == done
    modifies buf
    ensures p == |done + Via1Text(q, r)| && buf[..p] == done + Via1Text(q, r)
  {
    var h := q.headers[q.via1];
    if q.rport.Some? {
      p := Append3(buf, at, q.raw[h.name..q.rport.value.offset - 1], r.rportText,
        q.raw[q.rport.value.offset + q.rport.value.len..h.bodyEnd], done);
    } else {
      p := Append3(buf, at, q.raw[h.name..h.bodyEnd], TextOr(RportBuf(q, r)), "", done);
    }
  }

  function Via1Text(q: Request, r: Reply): string
    requires Parsed(q)
  {
    var h := q.headers[q.via1];
    if q.rport.Some? then
      q.raw[h.name..q.rport.value.offset - 1] + r.rportText + q.raw[q.rport.value.offset + q.rport.value.len..h.bodyEnd]
    else q.raw[h.name..h.bodyEnd] + TextOr(RportBuf(q, r)) + ""
  }

  method WriteVia(q: Request, r: Reply, i: nat, buf: array<char>, at: nat, ghost done: string) returns (p: nat)
    requires Parsed(q) && i < |q.headers| && q.headers[i].kind == Via
    requires at == |done| && at + |HeaderText(q, r, i)| <= buf.Length && buf[..at] == done
    modifies buf
    ensures p == |done + HeaderText(q, r, i)| && buf[..p] == done + HeaderText(q, r, i)
  {
    hide Parsed, HeaderText, ViaText, RportBuf, TextOr, Via1Text;
    if i == q.via1 {
      Via1Pieces(q, r);
      p := WriteVia1(q, r, buf, at, done);
      p := ViaEnd(buf, p, r.received, done + Via1Text(q, r));
      assert done + Via1Text(q, r) + (TextOr(r.received) + CRLF) == done + HeaderText(q, r, i);
    } else {
      OtherVia(q, r, i);
      var h := q.headers[i];
      p := Append3(buf, at, q.raw[h.name..h.bodyEnd], "", CRLF, done);
    }
  }

  lemma Via1Pieces(q: Request, r: Reply)
    requires Parsed(q)
    ensures HeaderText(q, r, q.via1) == Via1Text(q, r) + (TextOr(r.received) + CRLF)
  {
  }

  lemma OtherVia(q: Request, r: Reply, i: nat)
    requires Parsed(q) && i < |q.headers| && q.headers[i].kind == Via && i != q.via1
    ensures var h := q.headers[i];
      h.name <= h.bodyEnd <= |q.raw| && HeaderText(q, r, i) == q.raw[h.name..h.bodyEnd] + "" + CRLF
  {
  }

  /** The received parameter, if any, and the line end. */
  method ViaEnd(buf: array<char>, at: nat, received: Option<string>, ghost done: string) returns (p: nat)
    requires at == |done| && at + |TextOr(received) + CRLF| <= buf.Length && buf[..at] == done
    modifies buf
    ensures p == |done + (TextOr(received) + CRLF)| && buf[..p] == done + (TextOr(received) + CRLF)
  {
    p := at;
    if received.Some? {
      p := Append(buf, p, received.value, done);
    }
    p := Append(buf, p, CRLF, done + TextOr(received));
    assert done + TextOr(received) + CRLF == done + (TextOr(received) + CRLF);
  }

  method WriteTo(q: Request, r: Reply, i: nat, buf: array<char>, at: nat, ghost done: string)
    returns (p: nat, mark: Option<Span>)
    requires Parsed(q) && i < |q.headers| && q.headers[i].kind == To
    requires at == |done| && at + |HeaderText(q, r, i)| <= buf.Length && buf[..at] == done
    modifies buf
    ensures p == |done + HeaderText(q, r, i)| && buf[..p] == done + HeaderText(q, r, i)
    ensures mark == match TagAt(q, r, i) case None => None case Some(t) => Some(Span(at + t.offset, t.len))
  {
    hide Parsed, HeaderText, TagRest, TagLead, ReplacesTag, NewTag, TagAt;
    ToPieces(q, r, i);
    if NewTag(r) != "" {
      p, mark := WriteTag(q, r, i, buf, at, done);
    } else {
      var h := q.headers[i];
      p := Append(buf, at, q.raw[h.name..h.name + h.len], done);
      mark := if q.toTag.Some? then Some(Span(at + (q.toTag.value.offset - h.name), q.toTag.value.len)) else None;
    }
  }

  lemma ToPieces(q: Request, r: Reply, i: nat)
    requires Parsed(q) && i < |q.headers| && q.headers[i].kind == To
    ensures var h := q.headers[i];
      && h.name + h.len <= |q.raw| && (q.toTag.Some? ==> h.name <= q.toTag.value.offset)
      && (NewTag(r) == "" ==>
            && HeaderText(q, r, i) == q.raw[h.name..h.name + h.len]
            && TagAt(q, r, i) ==
                 if q.toTag.Some? then Some(Span(q.toTag.value.offset - h.name, q.toTag.value.len)) else None)
      && (NewTag(r) != "" ==>
            && HeaderText(q, r, i) == TagLead(q, i) + NewTag(r) + TagRest(q, i)
            && TagAt(q, r, i) == Some(Span(|TagLead(q, i)|, |NewTag(r)|)))
  {
  }

  /** The To header with a new tag; the bookmark is set when the tag is about to be written. */
  method WriteTag(q: Request, r: Reply, i: nat, buf: array<char>, at: nat, ghost done: string)
    returns (p: nat, mark: Option<Span>)
    requires Parsed(q) && i < |q.headers| && q.headers[i].kind == To
    requires at == |done| && at + |TagLead(q, i) + NewTag(r) + TagRest(q, i)| <= buf.Length && buf[..at] == done
    modifies buf
    ensures var text := TagLead(q, i) + NewTag(r) + TagRest(q, i);
      p == |done + text| && buf[..p] == done + text && mark == Some(Span(at + |TagLead(q, i)|, |NewTag(r)|))
  {
    hide NewTag, TagLead, TagRest, Parsed, ReplacesTag;
    p := Append(buf, at, TagLead(q, i), done);
    mark := Some(Span(p, |NewTag(r)|));
    p := Append3(buf, p, NewTag(r), TagRest(q, i), "", done + TagLead(q, i));
    assert done + TagLead(q, i) + (NewTag(r) + TagRest(q, i) + "") ==
        done + (TagLead(q, i) + NewTag(r) + TagRest(q, i));
  }

  lemma PlainHeader(q: Request, r: Reply, i: nat)
    requires Parsed(q) && i < |q.headers| && q.headers[i].kind != Via && q.headers[i].kind != To
    ensures var h := q.headers[i];
      && h.name + h.len <= |q.raw|
      && HeaderText(q, r, i) ==
           (if h.kind == Other || (h.kind == RecordRoute && (r.code < 180 || r.code >= 300)) then ""
            else q.raw[h.name..h.name + h.len])
  {
  }

  /** The header loop of the write pass. */
  method WriteHeaders(q: Request, r: Reply, buf: array<char>, at: nat, ghost done: string)
    returns (p: nat, mark: Option<Span>)
    requires Parsed(q) && at == |done| && at + |HeadersText(q, r, |q.headers|)| <= buf.Length && buf[..at] == done
    modifies buf
    ensures p == |done + HeadersText(q, r, |q.headers|)| && buf[..p] == done + HeadersText(q, r, |q.headers|)
    ensures mark == Mark(q, r, at, |q.headers|)
  {
    hide Parsed, HeaderText, TagAt;
    p, mark := at, None;
    assert done + HeadersText(q, r, 0) == done;
    var i := 0;
    while i < |q.headers|
      invariant i <= |q.headers| && |done + HeadersText(q, r, i)| == p <= buf.Length
      invariant buf[..p] == done + HeadersText(q, r, i) && mark == Mark(q, r, at, i)
    {
      HeaderIn(q, r, i, |q.headers|);
      var h := q.headers[i];
      ghost var soFar := done + HeadersText(q, r, i);
      if h.kind == Via {
        p := WriteVia(q, r, i, buf, p, soFar);
      } else if h.kind == To {
        p, mark := WriteTo(q, r, i, buf, p, soFar);
      } else {
        PlainHeader(q, r, i);
        if h.kind != Other && !(h.kind == RecordRoute && (r.code < 180 || r.code >= 300)) {
          p := Append(buf, p, q.raw[h.name..h.name + h.len], soFar);
        } else {
          assert soFar + HeaderText(q, r, i) == soFar;
        }
      }
      assert soFar + HeaderText(q, r, i) == done + HeadersText(q, r, i + 1);
      i := i + 1;
    }
  }

  method WriteLumps(ls: seq<Lump>, buf: array<char>, at: nat, ghost done: string) returns (p: nat)
    requires at == |done| && at + |HdrLumps(ls)| <= buf.Length && buf[..at] == done
    modifies buf
    ensures p == |done + HdrLumps(ls)| && buf[..p] == done + HdrLumps(ls)
  {
    hide IsHdr;
    p := at;
    assert done + HdrLumps(ls[..0]) == done;
    var i := 0;
    while i < |ls|
      invariant i <= |ls| && |done + HdrLumps(ls[..i])| == p <= buf.Length && buf[..p] == done + HdrLumps(ls[..i])
    {
      HdrLumpsGrow(ls, i);
      assert ls[..i + 1][..i] == ls[..i];
      if IsHdr(ls[i]) {
        p := Append(buf, p, ls[i].text, done + HdrLumps(ls[..i]));
        assert done + HdrLumps(ls[..i]) + ls[i].text == done + HdrLumps(ls[..i + 1]);
      }
      i := i + 1;
    }
    assert ls[..i] == ls;
  }

  lemma {:induction false} HdrLumpsGrow(ls: seq<Lump>, i: nat)
    requires i < |ls|
    ensures |HdrLumps(ls[..i])| + (if IsHdr(ls[i]) then |ls[i].text| else 0) <= |HdrLumps(ls)|
  {
    var init := ls[..|ls| - 1];
    if i < |init| {
      assert init[..i] == ls[..i];
      HdrLumpsGrow(init, i);
    }
  }

  /** What follows the copied headers. */
  method WriteTrailer(r: Reply, ls: seq<Lump>, body: Option<Lump>, buf: array<char>, at: nat, ghost done: string)
    returns (p: nat)
    requires body == BodyLump(ls)
    requires at == |done| && at + |Trailer(r, ls) + BodyText(ls)| <= buf.Length && buf[..at] == done
    modifies buf
    ensures p == |done + (Trailer(r, ls) + BodyText(ls))| && buf[..p] == done + (Trailer(r, ls) + BodyText(ls))
  {
    hide HdrLumps, BodyLump, ClenLine, Line;
    ghost var a, b, c, d := HdrLumps(ls), Line(r.server), ClenLine(BodyLen(body)), Line(r.warning);
    p := WriteLumps(ls, buf, at, done);
    p := Append(buf, p, Line(r.server), done + a);
    p := Append(buf, p, ClenLine(BodyLen(body)), done + a + b);
    p := Append(buf, p, Line(r.warning), done + a + b + c);
    p := Append(buf, p, CRLF, done + a + b + c + d);
    if body.Some? {
      p := Append(buf, p, body.value.text, done + a + b + c + d + CRLF);
    }
    assert done + a + b + c + d + CRLF + BodyText(ls) == done + (Trailer(r, ls) + BodyText(ls));
  }

  /** build_res_buf_from_sip_req: the buffer holds exactly the reply, whose length is the one
      computed, and the bookmark points at the To tag in it. */
  method Build(q: Request, r: Reply, lumps: ReplyLumps) returns (buf: array<char>, len: u32, mark: Option<Span>)
    requires Parsed(q) && WellFormed(lumps.lumps) && |ReplyText(q, r, lumps.lumps)| + 1 < TWO32
    ensures len == |ReplyText(q, r, lumps.lumps)| && buf.Length == len + 1
    ensures buf[..len] == ReplyText(q, r, lumps.lumps) && buf[len] == '\0'
    ensures mark.Some? ==>
      OccursAt(buf[..len], TagText(q, r), mark.value.offset) && mark.value.len == |TagText(q, r)|
    ensures mark.Some? <==> exists i :: 0 <= i < |q.headers| && Tagged(q, r, i)
  {
    hide Parsed, Wrap, HeadersText, ReplyLen, WellFormed, TagText, OccursAt, Mark, StatusLine, Trailer,
        BodyText, Tagged;
    var ls := lumps.lumps;
    ghost var goal := ReplyText(q, r, ls);
    var body;
    len, body := ComputeLength(q, r, ls);
    PassesAgree(q, r, ls);
    WrapId(|goal|);
    buf := new char[len + 1];
    var p := Append(buf, 0, StatusLine(r), "");
    assert "" + StatusLine(r) == StatusLine(r);
    p, mark := WriteHeaders(q, r, buf, p, StatusLine(r));
    ghost var hs := StatusLine(r) + HeadersText(q, r, |q.headers|);
    assert hs + (Trailer(r, ls) + BodyText(ls)) == goal;
    p := WriteTrailer(r, ls, body, buf, p, hs);
    buf[p] := '\0';
    assert buf[..len] == goal;
    MarkFindsTag(q, r, ls, |q.headers|);
    MarkSet(q, r, |StatusLine(r)|, |q.headers|);
  }

  /** Header i is the To header and has a tag in the reply. */
  predicate Tagged(q: Request, r: Reply, i: nat)
    requires i < |q.headers|
  {
    q.headers[i].kind == To && (NewTag(r) != "" || q.toTag.Some?)
  }

  /** The bookmark is set exactly if the To header of the reply has a tag. */
  lemma {:induction false} MarkSet(q: Request, r: Reply, start: nat, k: nat)
    requires Parsed(q) && k <= |q.headers|
    ensures Mark(q, r, start, k).Some? <==> exists i :: 0 <= i < k && Tagged(q, r, i)
  {
    hide Parsed, HeadersText, NewTag, TagLead;
    if k > 0 {
      MarkSet(q, r, start, k - 1);
      if Tagged(q, r, k - 1) {
        assert Mark(q, r, start, k).Some?;
      }
    }
  }
}
