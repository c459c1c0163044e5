/**
  The whole rewritten message: request-URI replacement, header edits, body edits and the
  untouched tail.  Relates the two passes over both lists to the meaning of all edits and
  to the announced Content-Length.
*/
module Rewrite {
  import opened LumpText
  import opened LumpModel
  import opened Decimal

  const CRLF: string := "\r\n"

  /** clen_builder's header line. */
  function ClenLine(n: nat): string {
    "Content-Length: " + Numeral(n) + CRLF
  }

  /** The body list holds anchored lumps only (nothing else is ever linked into it), none
      of them below the body. */
  predicate BodyZone(bs: seq<Lump>, b: nat) {
    AllFrom(bs, 0, b) && forall i :: 0 <= i < |bs| ==> bs[i].Anchored()
  }

  /** Everything the two process_lumps calls and the final memcpy write, from `w` on. */
  function Output(env: Env, orig: string, fh: seq<Lump>, fb: seq<Lump>, w: nat): string
    requires InBounds(fh, |orig|) && InBounds(fb, |orig|) && w <= |orig|
    requires EmitEnd(fh, w) <= |orig| && EmitEnd(fb, EmitEnd(fh, w)) <= |orig|
  {
    Emit(env, orig, fh, w) + Emit(env, orig, fb, EmitEnd(fh, w)) + orig[EmitEnd(fb, EmitEnd(fh, w))..]
  }

  /** Header edits stop at `b`, body edits start there. */
  predicate Zones(hs: seq<Lump>, bs: seq<Lump>, w: nat, b: nat, n: nat) {
    && w <= b <= n
    && Sorted(hs) && Sorted(bs)
    && InBounds(hs, b) && InBounds(bs, n)
    && AllFrom(hs, 0, w) && BodyZone(bs, b)
  }

  lemma ZonesJoin(hs: seq<Lump>, bs: seq<Lump>, w: nat, b: nat, n: nat)
    requires Zones(hs, bs, w, b, n)
    ensures InBounds(hs, n) && InBounds(hs + bs, n) && Sorted(hs + bs) && AllFrom(hs + bs, 0, w)
  {
  }

  /** Where each phase of the write pass starts and stops. */
  lemma PhaseBounds(env: Env, hs: seq<Lump>, bs: seq<Lump>, w: nat, b: nat, n: nat)
    requires Zones(hs, bs, w, b, n)
    ensures InBounds(Fix(hs, 0), b) && InBounds(Fix(hs, 0), n) && InBounds(Fix(bs, 0), n)
    ensures Fix(hs, 0) == Fix(hs, w) && Clear(Fix(hs, 0), w)
    ensures EmitEnd(Fix(hs, 0), w) == FixEnd(hs, w) <= b
    ensures forall e :: 0 <= e <= b ==> Clear(Fix(bs, 0), e) && EmitEnd(Fix(bs, 0), e) <= n
  {
    AllFromClear(hs, w);
    FixStart(env, hs, 0, w);
    FixInBounds(hs, w, b);
    FixSorted(hs, w);
    FixEndGrows(hs, w);
    EmitEndIsFixEnd(hs, w, w);
    AllFromClear(bs, b);
    FixStart(env, bs, 0, b);
    FixInBounds(bs, 0, n);
    forall e: nat | e <= b
      ensures Clear(Fix(bs, 0), e) && EmitEnd(Fix(bs, 0), e) <= n
    {
      ClearBelow(Fix(bs, 0), e, b);
      EmitEndBound(Fix(bs, 0), e, n);
    }
  }

  lemma {:induction false} ClearBelow(fs: seq<Lump>, e: nat, b: nat)
    requires Clear(fs, b) && e <= b
    ensures Clear(fs, e)
  {
    if fs != [] && !fs[0].Anchored() { ClearBelow(fs[1..], e, b); }
  }

  lemma {:induction false} EmitEndBound(fs: seq<Lump>, e: nat, n: nat)
    requires InBounds(fs, n) && e <= n
    ensures EmitEnd(fs, e) <= n
  {
    if fs != [] {
      EmitEndBound(fs[1..], EmitNext(fs[0], e), n);
    }
  }

  /** The bytes written equal the announced length, and no lump is ignored as overlapped. */
  lemma OutputLength(env: Env, orig: string, hs: seq<Lump>, bs: seq<Lump>, w: nat, b: nat)
    requires Zones(hs, bs, w, b, |orig|)
    ensures InBounds(Fix(hs, 0), |orig|) && InBounds(Fix(bs, 0), |orig|)
    ensures EmitEnd(Fix(hs, 0), w) <= |orig| && EmitEnd(Fix(bs, 0), EmitEnd(Fix(hs, 0), w)) <= |orig|
    ensures |Output(env, orig, Fix(hs, 0), Fix(bs, 0), w)| == |orig| - w + Delta(env, hs, 0) + Delta(env, bs, 0)
    ensures !Ignores(Fix(hs, 0), w) && !Ignores(Fix(bs, 0), EmitEnd(Fix(hs, 0), w))
  {
    var n := |orig|;
    ZonesJoin(hs, bs, w, b, n);
    PhaseBounds(env, hs, bs, w, b, n);
    var e := EmitEnd(Fix(hs, 0), w);
    PassesAgree(env, orig, hs, 0, w);
    PassesAgree(env, orig, bs, 0, e);
    IgnoresOnlyAtStart(hs, 0, w);
    IgnoresOnlyAtStart(bs, 0, e);
  }

  /** The output is what the edits of both lists mean together. */
  lemma OutputMeans(env: Env, orig: string, hs: seq<Lump>, bs: seq<Lump>, w: nat, b: nat)
    requires Zones(hs, bs, w, b, |orig|)
    ensures InBounds(hs + bs, |orig|) && Sorted(hs + bs) && AllFrom(hs + bs, 0, w)
    ensures InBounds(Fix(hs, 0), |orig|) && InBounds(Fix(bs, 0), |orig|)
    ensures EmitEnd(Fix(hs, 0), w) <= |orig| && EmitEnd(Fix(bs, 0), EmitEnd(Fix(hs, 0), w)) <= |orig|
    ensures Output(env, orig, Fix(hs, 0), Fix(bs, 0), w) == Weave(env, orig, hs + bs, 0, w)
  {
    var n := |orig|;
    ZonesJoin(hs, bs, w, b, n);
    PhaseBounds(env, hs, bs, w, b, n);
    var fh, fb, e := Fix(hs, 0), Fix(bs, 0), EmitEnd(Fix(hs, 0), w);
    AllFromClear(hs + bs, w);
    FixStart(env, hs + bs, 0, w);
    FixAppend(hs, bs, w);
    AllFromClear(bs, b);
    ClearBelow(bs, e, b);
    FixStart(env, bs, 0, e);
    assert Fix(hs + bs, 0) == fh + fb;
    EmitAppend(env, orig, fh, fb, w);
    ListMeans(env, orig, hs + bs, w);
  }

  /** Measuring the body list repairs it, which does not change what both lists mean. */
  lemma BodyRepairKeepsMeaning(env: Env, orig: string, hs: seq<Lump>, bs: seq<Lump>, w: nat, b: nat)
    requires Zones(hs, bs, w, b, |orig|) && Zones(hs, Fix(bs, 0), w, b, |orig|)
    ensures InBounds(hs + bs, |orig|) && Sorted(hs + bs) && AllFrom(hs + bs, 0, w)
    ensures var ls := hs + Fix(bs, 0);
      && InBounds(ls, |orig|) && Sorted(ls) && AllFrom(ls, 0, w)
      && Weave(env, orig, ls, 0, w) == Weave(env, orig, hs + bs, 0, w)
  {
    hide Fix, Weave, Emit, EmitEnd, Zones;
    OutputMeans(env, orig, hs, bs, w, b);
    OutputMeans(env, orig, hs, Fix(bs, 0), w, b);
    FixIdempotent(env, bs, 0);
  }

  /** The part of the output before the body: header edits, then the original up to `b`. */
  function HeaderPart(env: Env, orig: string, fh: seq<Lump>, w: nat, b: nat): string
    requires InBounds(fh, |orig|) && w <= |orig| && EmitEnd(fh, w) <= b <= |orig|
  {
    Emit(env, orig, fh, w) + orig[EmitEnd(fh, w)..b]
  }

  /** What the body edits make of the original body. */
  function BodyPart(env: Env, orig: string, bs: seq<Lump>, b: nat): string
    requires Sorted(bs) && InBounds(bs, |orig|) && AllFrom(bs, 0, b) && b <= |orig|
  {
    Weave(env, orig, bs, 0, b)
  }

  /** The output falls into a header part and a body part, and the body part has exactly
      the length that clen_builder computes from the body's length change. */
  lemma OutputSplits(env: Env, orig: string, hs: seq<Lump>, bs: seq<Lump>, w: nat, b: nat)
    requires Zones(hs, bs, w, b, |orig|)
    ensures InBounds(Fix(hs, 0), |orig|) && InBounds(Fix(bs, 0), |orig|)
    ensures EmitEnd(Fix(hs, 0), w) <= b && EmitEnd(Fix(bs, 0), EmitEnd(Fix(hs, 0), w)) <= |orig|
    ensures Output(env, orig, Fix(hs, 0), Fix(bs, 0), w)
         == HeaderPart(env, orig, Fix(hs, 0), w, b) + BodyPart(env, orig, bs, b)
    ensures |BodyPart(env, orig, bs, b)| == |orig| - b + Delta(env, bs, 0)
  {
    hide Emit, EmitEnd, Fix, Weave, Delta, Sorted, AllFrom, Clear;
    PhaseBounds(env, hs, bs, w, b, |orig|);
    var fh, fb, e := Fix(hs, 0), Fix(bs, 0), EmitEnd(Fix(hs, 0), w);
    ListMeans(env, orig, bs, b);
    PassesAgree(env, orig, bs, 0, b);
    BodyAfterHeaders(env, orig, bs, e, b);
    var h, gap := Emit(env, orig, fh, w), orig[e..b];
    var body := Emit(env, orig, fb, b) + orig[EmitEnd(fb, b)..];
    assert h + (gap + body) == h + gap + body;
    assert Output(env, orig, fh, fb, w) == h + (Emit(env, orig, fb, e) + orig[EmitEnd(fb, e)..]);
  }

  lemma BodyAfterHeaders(env: Env, orig: string, bs: seq<Lump>, e: nat, b: nat)
    requires InBounds(bs, |orig|) && BodyZone(bs, b) && e <= b <= |orig|
    ensures InBounds(Fix(bs, 0), |orig|) && EmitEnd(Fix(bs, 0), e) <= |orig| && EmitEnd(Fix(bs, 0), b) <= |orig|
    ensures Emit(env, orig, Fix(bs, 0), e) + orig[EmitEnd(Fix(bs, 0), e)..]
         == orig[e..b] + (Emit(env, orig, Fix(bs, 0), b) + orig[EmitEnd(Fix(bs, 0), b)..])
  {
    hide Emit, EmitEnd, Repair, Advance, Delta, InBounds, Sorted, AllFrom;
    var fb := Fix(bs, 0);
    FixInBounds(bs, 0, |orig|);
    EmitEndBound(fb, e, |orig|);
    EmitEndBound(fb, b, |orig|);
    if bs == [] {
      EmitNothing(env, orig, e);
      EmitNothing(env, orig, b);
      assert orig[e..] == orig[e..b] + orig[b..];
    } else {
      AllFromClear(bs, b);
      FixStart(env, bs, 0, b);
      assert fb[0].Anchored() by { FixStep(bs, 0, 0); assert bs[0..] == bs; }
      BodyStartsLater(env, orig, fb, e, b);
      var m, t := Emit(env, orig, fb, b), orig[EmitEnd(fb, b)..];
      assert orig[e..b] + m + t == orig[e..b] + (m + t);
    }
  }

  lemma EmitNothing(env: Env, orig: string, s: nat)
    requires s <= |orig|
    ensures Emit(env, orig, [], s) == "" && EmitEnd([], s) == s
  {
  }

  lemma BodyStartsLater(env: Env, orig: string, fb: seq<Lump>, e: nat, b: nat)
    requires fb != [] && fb[0].Anchored() && InBounds(fb, |orig|) && Clear(fb, b) && e <= b <= |orig|
    ensures EmitEnd(fb, e) == EmitEnd(fb, b)
    ensures Emit(env, orig, fb, e) == orig[e..b] + Emit(env, orig, fb, b)
  {
  }

  // --- text queued on an anchor reaches the output ---

  predicate OccursAt(s: string, t: string, i: nat) {
    i + |t| <= |s| && s[i..i + |t|] == t
  }

  predicate Contains(s: string, t: string) {
    exists i: nat :: i <= |s| && OccursAt(s, t, i)
  }

  /** `t` is a node of the chain with only literal text in front of it. */
  predicate InChain(chain: seq<Chunk>, t: string) {
    exists j :: 0 <= j < |chain| && chain[j] == Add(t) && forall i :: 0 <= i < j ==> chain[i].Add?
  }

  /** Some anchored lump has `t` queued after it. */
  predicate Carries(ls: seq<Lump>, t: string) {
    exists k :: 0 <= k < |ls| && ls[k].Anchored() && InChain(ls[k].after, t)
  }

  lemma ContainsWithin(a: string, s: string, c: string, t: string)
    requires Contains(s, t)
    ensures Contains(a + s + c, t)
  {
    var i: nat :| i <= |s| && OccursAt(s, t, i);
    var r := a + s + c;
    assert r[|a| + i..|a| + i + |t|] == s[i..i + |t|];
    assert OccursAt(r, t, |a| + i);
  }

  lemma {:induction false} ChainTextContains(env: Env, chain: seq<Chunk>, t: string, j: nat)
    requires j < |chain| && chain[j] == Add(t) && forall i :: 0 <= i < j ==> chain[i].Add?
    ensures Contains(ChainText(env, chain), t)
  {
    hide CheckOpt, SubstText;
    var tail := ChainText(env, chain[1..]);
    if j == 0 {
      assert OccursAt(t, t, 0);
      ContainsWithin("", t, tail, t);
      assert "" + t + tail == t + tail;
    } else {
      ChainTextContains(env, chain[1..], t, j - 1);
      ContainsWithin(chain[0].value, tail, "", t);
      assert chain[0].value + tail + "" == chain[0].value + tail;
    }
  }

  lemma CarriedText(env: Env, l: Lump, t: string)
    requires l.Anchored() && InChain(l.after, t)
    ensures Contains(l.Text(env), t)
  {
    hide ChainText, Contains;
    var j :| 0 <= j < |l.after| && l.after[j] == Add(t) && forall i :: 0 <= i < j ==> l.after[i].Add?;
    ChainTextContains(env, l.after, t, j);
    var b, a := ChainText(env, l.before), ChainText(env, l.after);
    ContainsWithin(b, a, "", t);
    assert l.Text(env) == b + a + "";
  }

  /** Repair leaves chains alone, and no lump of a repaired list is ignored, so carried
      text is written. */
  lemma {:induction false} CarriedTextWritten(env: Env, orig: string, ls: seq<Lump>, s: nat, w: nat, k: nat, t: string)
    requires InBounds(ls, |orig|) && s <= |orig| && w <= |orig| && Clear(Fix(ls, s), w)
    requires k < |ls| && ls[k].Anchored() && InChain(ls[k].after, t)
    ensures InBounds(Fix(ls, s), |orig|)
    ensures Contains(Emit(env, orig, Fix(ls, s), w), t)
  {
    hide Emit, EmitEnd, Lump.Text, Contains;
    FixInBounds(ls, s, |orig|);
    var fs := Fix(ls, s);
    var r := Repair(ls[0], s);
    var s' := Advance(r, s);
    assert fs[0] == r && fs[1..] == Fix(ls[1..], s');
    EmitUnfold(env, orig, fs, w);
    var head := EmitPiece(env, orig, r, w);
    var tail := Emit(env, orig, fs[1..], EmitNext(r, w));
    if k == 0 {
      CarriedText(env, r, t);
      ContainsWithin(orig[w..r.op.offset], r.Text(env), tail, t);
      assert orig[w..r.op.offset] + r.Text(env) + tail == head + tail;
    } else {
      if r.Anchored() {
        FixSorted(ls[1..], s');
        CarriedTextWritten(env, orig, ls[1..], s', s', k - 1, t);
      } else {
        CarriedTextWritten(env, orig, ls[1..], s, w, k - 1, t);
      }
      ContainsWithin(head, tail, "", t);
      assert head + tail + "" == head + tail;
    }
  }

  /** A Content-Length line queued by adjust_clen appears in the header part. */
  lemma HeaderPartContains(env: Env, orig: string, hs: seq<Lump>, bs: seq<Lump>, w: nat, b: nat, t: string)
    requires Zones(hs, bs, w, b, |orig|) && Carries(hs, t)
    ensures InBounds(Fix(hs, 0), |orig|) && EmitEnd(Fix(hs, 0), w) <= b
    ensures Contains(HeaderPart(env, orig, Fix(hs, 0), w, b), t)
  {
    hide Emit, EmitEnd, Fix, Contains;
    ZonesJoin(hs, bs, w, b, |orig|);
    PhaseBounds(env, hs, bs, w, b, |orig|);
    var k :| 0 <= k < |hs| && hs[k].Anchored() && InChain(hs[k].after, t);
    CarriedTextWritten(env, orig, hs, 0, w, k, t);
    var s := Emit(env, orig, Fix(hs, 0), w);
    var c := orig[EmitEnd(Fix(hs, 0), w)..b];
    ContainsWithin("", s, c, t);
    assert "" + s + c == s + c;
  }

  /** Main result on Content-Length: a line that states the length of the edited body, once
      queued among the header edits, stands in the header part of a message whose body part
      has just that length. */
  lemma ContentLengthIsRight(env: Env, orig: string, hs: seq<Lump>, bs: seq<Lump>, w: nat, b: nat)
    requires Zones(hs, bs, w, b, |orig|)
    requires 0 <= |orig| - b + Delta(env, bs, 0) && Carries(hs, ClenLine(|orig| - b + Delta(env, bs, 0)))
    ensures InBounds(hs + bs, |orig|) && Sorted(hs + bs) && AllFrom(hs + bs, 0, w)
    ensures InBounds(Fix(hs, 0), |orig|) && EmitEnd(Fix(hs, 0), w) <= b
    ensures Weave(env, orig, hs + bs, 0, w) == HeaderPart(env, orig, Fix(hs, 0), w, b) + BodyPart(env, orig, bs, b)
    ensures Contains(HeaderPart(env, orig, Fix(hs, 0), w, b), ClenLine(|BodyPart(env, orig, bs, b)|))
  {
    hide Weave, Delta, Fix, Emit, EmitEnd, Zones, Contains, Carries;
    OutputMeans(env, orig, hs, bs, w, b);
    OutputSplits(env, orig, hs, bs, w, b);
    HeaderPartContains(env, orig, hs, bs, w, b, ClenLine(|orig| - b + Delta(env, bs, 0)));
  }

  // --- changing a byte of the output instead of the original ---

  /** Two originals that differ in deleted bytes only leave the same survivors. */
  lemma {:induction false} SurvivorsSame(orig: string, other: string, ls: seq<Lump>, a: nat, b: nat)
    requires |orig| == |other| && a <= b <= |orig|
    requires forall k :: a <= k < b ==> orig[k] == other[k] || Deleted(ls, k)
    ensures Survivors(orig, ls, a, b) == Survivors(other, ls, a, b)
    decreases b - a
  {
    hide Deleted;
    if a < b { SurvivorsSame(orig, other, ls, a + 1, b); }
  }

  lemma {:induction false} WeaveSame(env: Env, orig: string, other: string, ls: seq<Lump>, i: nat, a: nat)
    requires |orig| == |other| && i <= |ls| && a <= |orig| && InBounds(ls, |orig|) && Sorted(ls) && AllFrom(ls, i, a)
    requires forall k :: a <= k < |orig| ==> orig[k] == other[k] || Deleted(ls, k)
    ensures Weave(env, orig, ls, i, a) == Weave(env, other, ls, i, a)
    decreases |ls| - i
  {
    hide Deleted, Survivors, Lump.Text;
    if i == |ls| {
      SurvivorsSame(orig, other, ls, a, |orig|);
    } else if ls[i].Anchored() {
      assert ls[i].op.offset <= ls[i].Beyond() <= |orig|;
      SurvivorsSame(orig, other, ls, a, ls[i].op.offset);
      WeaveSame(env, orig, other, ls, i + 1, ls[i].op.offset);
    } else {
      WeaveSame(env, orig, other, ls, i + 1, a);
    }
  }

  /** The number of bytes written in front of byte p of the original, from lump i and byte a on. */
  function Ahead(env: Env, orig: string, ls: seq<Lump>, i: nat, a: nat, p: nat): nat
    requires i <= |ls| && a <= p < |orig| && Sorted(ls) && AllFrom(ls, i, a)
    decreases |ls| - i
  {
    if i == |ls| then |Survivors(orig, ls, a, p)|
    else if !ls[i].Anchored() then |ls[i].Text(env)| + Ahead(env, orig, ls, i + 1, a, p)
    else if ls[i].op.offset > p then |Survivors(orig, ls, a, p)|
    else
      |Survivors(orig, ls, a, ls[i].op.offset)| + |ls[i].Text(env)|
      + Ahead(env, orig, ls, i + 1, ls[i].op.offset, p)
  }

  lemma SurvivorsAround(orig: string, ls: seq<Lump>, a: nat, p: nat, b: nat)
    requires a <= p < b <= |orig| && !Deleted(ls, p)
    ensures Survivors(orig, ls, a, b) == Survivors(orig, ls, a, p) + [orig[p]] + Survivors(orig, ls, p + 1, b)
  {
    hide Deleted;
    SurvivorsSplit(orig, ls, a, p, b);
  }

  /** A byte that is not deleted comes out once, behind as many bytes as `Ahead` counts; changing
      it changes this byte of the output and no other. */
  lemma {:induction false} ByteComesOut(env: Env, orig: string, ls: seq<Lump>, i: nat, a: nat, p: nat, c: char)
    returns (front: string, back: string)
    requires i <= |ls| && a <= p < |orig| && InBounds(ls, |orig|) && Sorted(ls) && AllFrom(ls, i, a) && !Deleted(ls, p)
    ensures |front| == Ahead(env, orig, ls, i, a, p)
    ensures Weave(env, orig, ls, i, a) == front + [orig[p]] + back
    ensures Weave(env, orig[p := c], ls, i, a) == front + [c] + back
    decreases |ls| - i
  {
    hide Deleted, Survivors, Lump.Text;
    var other := orig[p := c];
    var stop := if i < |ls| && ls[i].Anchored() then ls[i].op.offset else |orig|;
    assert i < |ls| && ls[i].Anchored() ==> stop <= ls[i].Beyond() <= |orig|;
    if i == |ls| || (ls[i].Anchored() && stop > p) {
      SurvivorsAround(orig, ls, a, p, stop);
      SurvivorsAround(other, ls, a, p, stop);
      SurvivorsSame(orig, other, ls, a, p);
      SurvivorsSame(orig, other, ls, p + 1, stop);
      front, back := Survivors(orig, ls, a, p), Survivors(orig, ls, p + 1, stop);
      if i < |ls| {
        WeaveSame(env, orig, other, ls, i + 1, stop);
        var rest := ls[i].Text(env) + Weave(env, orig, ls, i + 1, stop);
        BehindByte(front, [orig[p]], back, ls[i].Text(env), Weave(env, orig, ls, i + 1, stop));
        BehindByte(front, [c], back, ls[i].Text(env), Weave(env, orig, ls, i + 1, stop));
        back := back + rest;
      }
    } else {
      var a' := if ls[i].Anchored() then stop else a;
      front, back := ByteComesOut(env, orig, ls, i + 1, a', p, c);
      var lead := (if ls[i].Anchored() then Survivors(orig, ls, a, stop) else "") + ls[i].Text(env);
      if ls[i].Anchored() { SurvivorsSame(orig, other, ls, a, stop); }
      InFrontOfByte(lead, front, [orig[p]], back);
      InFrontOfByte(lead, front, [c], back);
      assert "" + ls[i].Text(env) == ls[i].Text(env);
      front := lead + front;
    }
  }

  lemma BehindByte(front: string, byte: string, back: string, text: string, rest: string)
    ensures front + byte + back + text + rest == front + byte + (back + (text + rest))
  {
  }

  lemma InFrontOfByte(lead: string, front: string, byte: string, back: string)
    ensures lead + (front + byte + back) == lead + front + byte + back
  {
  }

  /** Byte p of the output overwritten, if there is one. */
  function Patched(text: string, p: nat, c: char): string {
    if p < |text| then text[p := c] else text
  }

  /** When overwriting byte p of the output does what overwriting it in the original would do. */
  predicate PatchHits(env: Env, orig: string, ls: seq<Lump>, p: nat, c: char)
    requires InBounds(ls, |orig|) && Sorted(ls) && p < |orig|
  {
    if Deleted(ls, p) then var text := Weave(env, orig, ls, 0, 0); p < |text| ==> text[p] == c
    else Ahead(env, orig, ls, 0, 0, p) == p
  }

  /** Overwriting a byte of the output at its offset in the original is overwriting it in the
      original if and only if exactly as many bytes are written in front of it as stood there, or
      the byte is deleted and the one found at its offset needs no change. */
  lemma PatchExactly(env: Env, orig: string, ls: seq<Lump>, p: nat, c: char)
    requires InBounds(ls, |orig|) && Sorted(ls) && p < |orig| && orig[p] != c
    ensures Weave(env, orig[p := c], ls, 0, 0) == Patched(Weave(env, orig, ls, 0, 0), p, c)
            <==> PatchHits(env, orig, ls, p, c)
  {
    hide Weave, Deleted, Ahead;
    var w, w' := Weave(env, orig, ls, 0, 0), Weave(env, orig[p := c], ls, 0, 0);
    if Deleted(ls, p) {
      WeaveSame(env, orig, orig[p := c], ls, 0, 0);
      if p < |w| { assert w[p := c][p] == c; }
    } else {
      var front, back := ByteComesOut(env, orig, ls, 0, 0, p, c);
      assert w[|front|] == orig[p] && w'[|front|] == c;
      if |front| == p { assert w' == w[p := c]; }
    }
  }

  /** The text of the lumps in front of the first anchored one, from lump i on. */
  function LeadText(env: Env, ls: seq<Lump>, i: nat): string
    requires i <= |ls|
    decreases |ls| - i
  {
    if i == |ls| || ls[i].Anchored() then "" else ls[i].Text(env) + LeadText(env, ls, i + 1)
  }

  /** When all edits are anchored behind the byte, only text in front of all offsets moves it. */
  lemma PatchBehind(env: Env, orig: string, ls: seq<Lump>, p: nat, c: char)
    requires InBounds(ls, |orig|) && Sorted(ls) && p < |orig| && AllFrom(ls, 0, p + 1)
    ensures PatchHits(env, orig, ls, p, c) <==> LeadText(env, ls, 0) == ""
  {
    AheadBehind(env, orig, ls, 0, p);
    GapSurvives(ls, 0, 0, p + 1);
  }

  lemma {:induction false} AheadBehind(env: Env, orig: string, ls: seq<Lump>, i: nat, p: nat)
    requires i <= |ls| && p < |orig| && Sorted(ls) && AllFrom(ls, 0, p + 1)
    ensures AllFrom(ls, i, 0) && Ahead(env, orig, ls, i, 0, p) == |LeadText(env, ls, i)| + p
    decreases |ls| - i
  {
    hide Lump.Text;
    if i < |ls| && !ls[i].Anchored() {
      AheadBehind(env, orig, ls, i + 1, p);
    } else {
      GapSurvives(ls, 0, 0, p);
      SurvivorsAll(orig, ls, 0, p);
    }
  }

  /** An anchor at the start of the message with text on it moves every byte. */
  lemma AnchorInFront(env: Env, orig: string, p: nat, c: char, t: string)
    requires p < |orig| && t != ""
    ensures var ls := [Lump(Nop(0, 0), [Add(t)], [])];
      && InBounds(ls, |orig|) && Sorted(ls) && LeadText(env, ls, 0) == "" && !PatchHits(env, orig, ls, p, c)
  {
    var ls := [Lump(Nop(0, 0), [Add(t)], [])];
    SurvivorsAll(orig, ls, 0, p);
    assert ChainText(env, [Add(t)]) == t + ChainText(env, []);
    assert ls[0].Text(env) == t;
    assert Ahead(env, orig, ls, 0, 0, p) == 0 + |t| + Ahead(env, orig, ls, 1, 0, p);
  }

  /** A message deleted as a whole has no byte to overwrite. */
  lemma NothingToPatch(env: Env, orig: string)
    ensures var ls := [Lump(Del(0, |orig|), [], [])];
      InBounds(ls, |orig|) && Sorted(ls) && Weave(env, orig, ls, 0, 0) == ""
  {
    var ls := [Lump(Del(0, |orig|), [], [])];
    forall k | 0 <= k < |orig|
      ensures Deleted(ls, k)
    {
      assert ls[0].Beyond() == |orig|;
    }
    SurvivorsNone(orig, ls, 0, |orig|);
  }
}
