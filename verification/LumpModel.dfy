/**
  Lump lists as values: what the length pass computes and repairs, what the write
  pass emits, and what a list of edits means.  The two passes are stated separately,
  as they are written separately in the source, and related by lemmas.
*/
module LumpModel {
  import opened LumpText

  /** LUMP_NOP and LUMP_DEL carry an offset into the original message; the other
      operations insert text wherever the list has got to. */
  datatype Op = Nop(offset: nat, len: nat) | Del(offset: nat, len: nat) | Ins(chunk: Chunk)

  datatype Lump = Lump(op: Op, before: seq<Chunk>, after: seq<Chunk>) {
    predicate Anchored() { !op.Ins? }

    /** Number of original bytes the lump asks to drop. */
    function Cut(): nat {
      if op.Del? then op.len else 0
    }

    /** First original offset after an anchored lump. */
    function Beyond(): nat
      requires Anchored()
    {
      op.offset + Cut()
    }

    /** A top-level condition that fails hides its whole lump. */
    predicate Hidden(env: Env) {
      op.Ins? && op.chunk.Opt? && !CheckOpt(env, op.chunk.cond)
    }

    function Text(env: Env): string {
      if Hidden(env) then ""
      else ChainText(env, before) + (if op.Ins? then ChunkText(env, op.chunk) else "") + ChainText(env, after)
    }

    function Count(env: Env): nat {
      if Hidden(env) then 0
      else ChainLen(env, before) + (if op.Ins? then ChunkLen(env, op.chunk) else 0) + ChainLen(env, after)
    }
  }

  predicate InBounds(ls: seq<Lump>, n: nat) {
    forall i :: 0 <= i < |ls| && ls[i].Anchored() ==> ls[i].Beyond() <= n
  }

  /** Anchored lumps appear in the order of their offsets. */
  predicate Sorted(ls: seq<Lump>) {
    forall i, j :: 0 <= i < j < |ls| && ls[i].Anchored() && ls[j].Anchored() ==> ls[i].op.offset <= ls[j].op.offset
  }

  // --- the length pass ---

  /** Overlap repair of one lump when the bytes below `s` are already accounted for. */
  function Repair(l: Lump, s: nat): (r: Lump)
    ensures r.Anchored() == l.Anchored()
    ensures l.Anchored() ==> r.op.offset >= s && r.op.offset >= l.op.offset
    ensures r.op.Del? ==> r.Beyond() == Max(s, l.Beyond())
  {
    match l.op
    case Del(o, n) => if o < s then l.(op := Del(s, if n > s - o then n - (s - o) else 0)) else l
    case Nop(o, n) => if o < s then l.(op := Nop(s, n)) else l
    case Ins(_) => l
  }

  function Max(a: nat, b: nat): nat {
    if a < b then b else a
  }

  /** s_offset after a repaired lump. */
  function Advance(r: Lump, s: nat): nat {
    if r.Anchored() then r.Beyond() else s
  }

  function Fix(ls: seq<Lump>, s: nat): (fs: seq<Lump>)
    ensures |fs| == |ls|
  {
    if ls == [] then []
    else
      var r := Repair(ls[0], s);
      [r] + Fix(ls[1..], Advance(r, s))
  }

  function FixEnd(ls: seq<Lump>, s: nat): nat {
    if ls == [] then s else FixEnd(ls[1..], Advance(Repair(ls[0], s), s))
  }

  /** Length change the list brings about, as an exact integer. */
  function Delta(env: Env, ls: seq<Lump>, s: nat): int {
    if ls == [] then 0
    else
      var r := Repair(ls[0], s);
      r.Count(env) - r.Cut() + Delta(env, ls[1..], Advance(r, s))
  }

  // --- the write pass ---

  function Emit(env: Env, orig: string, fs: seq<Lump>, s: nat): string
    requires InBounds(fs, |orig|) && s <= |orig|
  {
    if fs == [] then ""
    else if fs[0].Anchored() then
      if s > fs[0].op.offset then Emit(env, orig, fs[1..], s)
      else orig[s..fs[0].op.offset] + fs[0].Text(env) + Emit(env, orig, fs[1..], fs[0].Beyond())
    else fs[0].Text(env) + Emit(env, orig, fs[1..], s)
  }

  function EmitEnd(fs: seq<Lump>, s: nat): nat {
    if fs == [] then s
    else if fs[0].Anchored() then
      if s > fs[0].op.offset then EmitEnd(fs[1..], s) else EmitEnd(fs[1..], fs[0].Beyond())
    else EmitEnd(fs[1..], s)
  }

  /** What the write pass emits for one lump, and where it goes on. */
  function EmitPiece(env: Env, orig: string, t: Lump, s: nat): string
    requires s <= |orig| && (t.Anchored() ==> t.Beyond() <= |orig|)
  {
    if !t.Anchored() then t.Text(env)
    else if s > t.op.offset then ""
    else orig[s..t.op.offset] + t.Text(env)
  }

  function EmitNext(t: Lump, s: nat): nat {
    if t.Anchored() && s <= t.op.offset then t.Beyond() else s
  }

  lemma EmitUnfold(env: Env, orig: string, fs: seq<Lump>, s: nat)
    requires InBounds(fs, |orig|) && s <= |orig| && fs != []
    ensures fs[0].Anchored() ==> fs[0].Beyond() <= |orig|
    ensures InBounds(fs[1..], |orig|) && EmitNext(fs[0], s) <= |orig|
    ensures Emit(env, orig, fs, s) == EmitPiece(env, orig, fs[0], s) + Emit(env, orig, fs[1..], EmitNext(fs[0], s))
    ensures EmitEnd(fs, s) == EmitEnd(fs[1..], EmitNext(fs[0], s))
  {
  }

  /** Some lump meets the "overlapped lumps offsets, ignoring" branch. */
  predicate Ignores(fs: seq<Lump>, s: nat) {
    fs != [] &&
    if fs[0].Anchored() then s > fs[0].op.offset || Ignores(fs[1..], fs[0].Beyond())
    else Ignores(fs[1..], s)
  }

  /** The first anchored lump, if any, starts at or after `s`. */
  predicate Clear(fs: seq<Lump>, s: nat) {
    fs == [] || if fs[0].Anchored() then s <= fs[0].op.offset else Clear(fs[1..], s)
  }

  // --- what a list of edits means ---

  /** Byte `k` of the original lies in some deleted zone. */
  predicate Deleted(ls: seq<Lump>, k: nat) {
    exists i :: 0 <= i < |ls| && ls[i].op.Del? && ls[i].op.offset <= k < ls[i].Beyond()
  }

  /** The bytes of orig[a..b] that no lump deletes, in order. */
  function Survivors(orig: string, ls: seq<Lump>, a: nat, b: nat): string
    requires a <= b <= |orig|
    decreases b - a
  {
    if a == b then ""
    else (if Deleted(ls, a) then "" else [orig[a]]) + Survivors(orig, ls, a + 1, b)
  }

  /** Lumps from `i` on ask for offsets at or after `a`. */
  predicate AllFrom(ls: seq<Lump>, i: nat, a: nat) {
    forall j :: i <= j < |ls| && ls[j].Anchored() ==> a <= ls[j].op.offset
  }

  /** The intended result: surviving bytes in order, and the text of each anchored lump
      after exactly the surviving bytes below the offset it was requested at. */
  function Weave(env: Env, orig: string, ls: seq<Lump>, i: nat, a: nat): string
    requires i <= |ls| && a <= |orig| && InBounds(ls, |orig|) && Sorted(ls) && AllFrom(ls, i, a)
    decreases |ls| - i
  {
    if i == |ls| then Survivors(orig, ls, a, |orig|)
    else if ls[i].Anchored() then
      Survivors(orig, ls, a, ls[i].op.offset) + ls[i].Text(env) + Weave(env, orig, ls, i + 1, ls[i].op.offset)
    else ls[i].Text(env) + Weave(env, orig, ls, i + 1, a)
  }

  // --- repair ---

  lemma {:induction false} FixInBounds(ls: seq<Lump>, s: nat, n: nat)
    requires InBounds(ls, n) && s <= n
    ensures InBounds(Fix(ls, s), n) && FixEnd(ls, s) <= n
  {
    if ls != [] {
      var r := Repair(ls[0], s);
      assert r.Anchored() ==> ls[0].Beyond() <= n;
      FixInBounds(ls[1..], Advance(r, s), n);
    }
  }

  /** Repaired lists are sorted even if the requested one was not. */
  lemma {:induction false} FixSorted(ls: seq<Lump>, s: nat)
    ensures Sorted(Fix(ls, s)) && AllFrom(Fix(ls, s), 0, s) && Clear(Fix(ls, s), s)
  {
    if ls != [] {
      var r := Repair(ls[0], s);
      FixSorted(ls[1..], Advance(r, s));
    }
  }

  /** Running the length pass again changes nothing: not the list, not the length. */
  lemma {:induction false} FixIdempotent(env: Env, ls: seq<Lump>, s: nat)
    ensures Fix(Fix(ls, s), s) == Fix(ls, s)
    ensures Delta(env, Fix(ls, s), s) == Delta(env, ls, s)
  {
    if ls != [] {
      var r := Repair(ls[0], s);
      assert Repair(r, s) == r;
      assert Fix(ls, s)[1..] == Fix(ls[1..], Advance(r, s));
      FixIdempotent(env, ls[1..], Advance(r, s));
    }
  }

  /** Starting the repair anywhere up to the first requested offset gives the same list. */
  lemma {:induction false} FixStart(env: Env, ls: seq<Lump>, s: nat, w: nat)
    requires s <= w && Clear(ls, w)
    ensures Fix(ls, s) == Fix(ls, w) && Delta(env, ls, s) == Delta(env, ls, w) && Clear(Fix(ls, s), w)
  {
    if ls != [] && !ls[0].Anchored() {
      FixStart(env, ls[1..], s, w);
    }
  }

  lemma {:induction false} FixAppend(hs: seq<Lump>, bs: seq<Lump>, s: nat)
    ensures Fix(hs + bs, s) == Fix(hs, s) + Fix(bs, FixEnd(hs, s))
    ensures FixEnd(hs + bs, s) == FixEnd(bs, FixEnd(hs, s))
  {
    if hs == [] {
      assert hs + bs == bs;
    } else {
      assert (hs + bs)[1..] == hs[1..] + bs;
      FixAppend(hs[1..], bs, Advance(Repair(hs[0], s), s));
    }
  }

  // --- the two passes agree ---

  lemma CountAgrees(env: Env, l: Lump)
    ensures |l.Text(env)| == l.Count(env)
  {
    ChainAgrees(env, l.before);
    ChainAgrees(env, l.after);
    if l.op.Ins? && l.op.chunk.Subst? { SubstAgrees(env, l.op.chunk.kind); }
  }

  /** Bytes written over a repaired list: original bytes passed over, plus the length
      the other pass announced. */
  lemma {:induction false} PassesAgree(env: Env, orig: string, ls: seq<Lump>, s: nat, w: nat)
    requires InBounds(ls, |orig|) && s <= |orig| && w <= |orig|
    requires Clear(Fix(ls, s), w)
    ensures InBounds(Fix(ls, s), |orig|)
    ensures EmitEnd(Fix(ls, s), w) <= |orig|
    ensures |Emit(env, orig, Fix(ls, s), w)| == EmitEnd(Fix(ls, s), w) - w + Delta(env, ls, s)
  {
    FixInBounds(ls, s, |orig|);
    if ls != [] {
      var r := Repair(ls[0], s);
      var s' := Advance(r, s);
      assert Fix(ls, s)[1..] == Fix(ls[1..], s');
      assert Fix(ls, s)[0] == r;
      CountAgrees(env, r);
      if r.Anchored() {
        assert InBounds(Fix(ls, s), |orig|);
        FixSorted(ls[1..], s');
        PassesAgree(env, orig, ls[1..], s', s');
      } else {
        PassesAgree(env, orig, ls[1..], s, w);
      }
    }
  }

  /** On a repaired list the "ignoring" branch is taken exactly when writing starts
      past the first anchored lump. */
  lemma {:induction false} IgnoresOnlyAtStart(ls: seq<Lump>, s: nat, w: nat)
    ensures Ignores(Fix(ls, s), w) <==> !Clear(Fix(ls, s), w)
  {
    if ls != [] {
      var r := Repair(ls[0], s);
      var s' := Advance(r, s);
      assert Fix(ls, s)[1..] == Fix(ls[1..], s');
      if r.Anchored() {
        FixSorted(ls[1..], s');
        IgnoresOnlyAtStart(ls[1..], s', s');
      } else {
        IgnoresOnlyAtStart(ls[1..], s, w);
      }
    }
  }

  lemma {:induction false} EmitAppend(env: Env, orig: string, fs: seq<Lump>, gs: seq<Lump>, w: nat)
    requires InBounds(fs, |orig|) && InBounds(gs, |orig|) && w <= |orig|
    ensures EmitEnd(fs, w) <= |orig| && InBounds(fs + gs, |orig|)
    ensures EmitEnd(fs + gs, w) == EmitEnd(gs, EmitEnd(fs, w))
    ensures Emit(env, orig, fs + gs, w) == Emit(env, orig, fs, w) + Emit(env, orig, gs, EmitEnd(fs, w))
  {
    hide EmitPiece, EmitNext, Lump.Text;
    if fs == [] {
      assert fs + gs == gs;
    } else {
      var all := fs + gs;
      assert all[0] == fs[0] && all[1..] == fs[1..] + gs;
      assert InBounds(all, |orig|);
      EmitUnfold(env, orig, fs, w);
      EmitUnfold(env, orig, all, w);
      EmitAppend(env, orig, fs[1..], gs, EmitNext(fs[0], w));
    }
  }

  /** Writing a repaired list ends where the repair ended. */
  lemma {:induction false} EmitEndIsFixEnd(ls: seq<Lump>, s: nat, w: nat)
    requires Clear(Fix(ls, s), w) && s <= w
    ensures EmitEnd(Fix(ls, s), w) == Max(w, FixEnd(ls, s))
  {
    if ls != [] {
      var r := Repair(ls[0], s);
      var s' := Advance(r, s);
      assert Fix(ls, s)[1..] == Fix(ls[1..], s');
      if r.Anchored() {
        FixSorted(ls[1..], s');
        FixEndGrows(ls[1..], s');
        EmitEndIsFixEnd(ls[1..], s', s');
      } else {
        EmitEndIsFixEnd(ls[1..], s, w);
      }
    }
  }

  lemma {:induction false} FixEndGrows(ls: seq<Lump>, s: nat)
    ensures s <= FixEnd(ls, s)
  {
    if ls != [] {
      FixEndGrows(ls[1..], Advance(Repair(ls[0], s), s));
    }
  }

  // --- the passes do what the edits mean ---

  lemma {:induction false} SurvivorsSplit(orig: string, ls: seq<Lump>, a: nat, b: nat, c: nat)
    requires a <= b <= c <= |orig|
    ensures Survivors(orig, ls, a, c) == Survivors(orig, ls, a, b) + Survivors(orig, ls, b, c)
    decreases b - a
  {
    if a < b { SurvivorsSplit(orig, ls, a + 1, b, c); }
  }

  lemma {:induction false} SurvivorsNone(orig: string, ls: seq<Lump>, a: nat, b: nat)
    requires a <= b <= |orig|
    requires forall k :: a <= k < b ==> Deleted(ls, k)
    ensures Survivors(orig, ls, a, b) == ""
    decreases b - a
  {
    if a < b { SurvivorsNone(orig, ls, a + 1, b); }
  }

  lemma {:induction false} SurvivorsAll(orig: string, ls: seq<Lump>, a: nat, b: nat)
    requires a <= b <= |orig|
    requires forall k :: a <= k < b ==> !Deleted(ls, k)
    ensures Survivors(orig, ls, a, b) == orig[a..b]
    decreases b - a
  {
    if a < b { SurvivorsAll(orig, ls, a + 1, b); }
  }

  /** Bytes between the last repaired end and the next requested offset all survive. */
  lemma GapSurvives(ls: seq<Lump>, i: nat, s: nat, b: nat)
    requires i <= |ls|
    requires forall j :: 0 <= j < i && ls[j].op.Del? ==> ls[j].Beyond() <= s
    requires AllFrom(ls, i, b)
    ensures forall k :: s <= k < b ==> !Deleted(ls, k)
  {
  }

  lemma {:induction false} EmitMeans(env: Env, orig: string, ls: seq<Lump>, i: nat, a: nat, s: nat)
    requires Sorted(ls) && InBounds(ls, |orig|) && i <= |ls| && a <= s <= |orig| && AllFrom(ls, i, a)
    requires forall j :: 0 <= j < i && ls[j].op.Del? ==> ls[j].Beyond() <= s
    requires forall k :: a <= k < s ==> Deleted(ls, k)
    ensures InBounds(Fix(ls[i..], s), |orig|) && EmitEnd(Fix(ls[i..], s), s) <= |orig|
    ensures Emit(env, orig, Fix(ls[i..], s), s) + orig[EmitEnd(Fix(ls[i..], s), s)..] == Weave(env, orig, ls, i, a)
    decreases |ls| - i
  {
    hide Lump.Text, Repair, Advance, Deleted;
    var n := |orig|;
    FixInBounds(ls[i..], s, n);
    if i == |ls| {
      SurvivorsSplit(orig, ls, a, s, n);
      SurvivorsNone(orig, ls, a, s);
      GapSurvives(ls, i, s, n);
      SurvivorsAll(orig, ls, s, n);
    } else {
      var fs := Fix(ls[i..], s);
      FixStep(ls, i, s);
      if ls[i].Anchored() {
        AnchoredStep(ls, i, a, s);
        EmitStep(env, orig, ls, i, a, s);
        EmitMeans(env, orig, ls, i + 1, ls[i].op.offset, Advance(fs[0], s));
      } else {
        EmitMeans(env, orig, ls, i + 1, a, s);
        assert Emit(env, orig, fs, s) == ls[i].Text(env) + Emit(env, orig, fs[1..], s);
      }
    }
  }

  lemma FixStep(ls: seq<Lump>, i: nat, s: nat)
    requires i < |ls|
    ensures var r := Repair(ls[i], s);
      && Fix(ls[i..], s)[0] == r
      && Fix(ls[i..], s)[1..] == Fix(ls[i + 1..], Advance(r, s))
      && r.Anchored() == ls[i].Anchored()
      && (!r.Anchored() ==> r == ls[i] && Advance(r, s) == s)
  {
  }

  /** The repair keeps its invariant: everything between the requested offset of the lump
      just handled and the new s_offset is deleted. */
  lemma AnchoredStep(ls: seq<Lump>, i: nat, a: nat, s: nat)
    requires Sorted(ls) && i < |ls| && ls[i].Anchored() && AllFrom(ls, i, a) && a <= s
    requires forall j :: 0 <= j < i && ls[j].op.Del? ==> ls[j].Beyond() <= s
    requires forall k :: a <= k < s ==> Deleted(ls, k)
    ensures AllFrom(ls, i + 1, ls[i].op.offset)
    ensures ls[i].op.offset <= Advance(Repair(ls[i], s), s)
    ensures forall j :: 0 <= j < i + 1 && ls[j].op.Del? ==> ls[j].Beyond() <= Advance(Repair(ls[i], s), s)
    ensures forall k :: ls[i].op.offset <= k < Advance(Repair(ls[i], s), s) ==> Deleted(ls, k)
  {
  }

  /** One anchored lump: the write pass and the meaning take the same step. */
  lemma EmitStep(env: Env, orig: string, ls: seq<Lump>, i: nat, a: nat, s: nat)
    requires Sorted(ls) && InBounds(ls, |orig|) && i < |ls| && a <= s <= |orig| && AllFrom(ls, i, a)
    requires ls[i].Anchored()
    requires forall j :: 0 <= j < i && ls[j].op.Del? ==> ls[j].Beyond() <= s
    requires forall k :: a <= k < s ==> Deleted(ls, k)
    ensures ls[i].op.offset <= |orig|
    ensures InBounds(Fix(ls[i..], s), |orig|) && InBounds(Fix(ls[i..], s)[1..], |orig|)
    ensures Advance(Repair(ls[i], s), s) <= |orig|
    ensures Emit(env, orig, Fix(ls[i..], s), s)
         == Survivors(orig, ls, a, ls[i].op.offset) + ls[i].Text(env)
          + Emit(env, orig, Fix(ls[i..], s)[1..], Advance(Repair(ls[i], s), s))
    ensures EmitEnd(Fix(ls[i..], s), s) == EmitEnd(Fix(ls[i..], s)[1..], Advance(Repair(ls[i], s), s))
  {
    var l := ls[i];
    var o := l.op.offset;
    var r := Repair(l, s);
    assert l.Beyond() <= |orig|;
    assert ls[i..][0] == l;
    FixInBounds(ls[i..], s, |orig|);
    if o < s {
      SurvivorsNone(orig, ls, a, o);
    } else {
      SurvivorsSplit(orig, ls, a, s, o);
      SurvivorsNone(orig, ls, a, s);
      GapSurvives(ls, i, s, o);
      SurvivorsAll(orig, ls, s, o);
    }
    assert r.Text(env) == l.Text(env);
    assert orig[s..r.op.offset] == Survivors(orig, ls, a, o);
  }

  /** Main result for one list: writing the repaired list gives what the requested list
      means, from any starting point up to its first offset. */
  lemma ListMeans(env: Env, orig: string, ls: seq<Lump>, w: nat)
    requires Sorted(ls) && InBounds(ls, |orig|) && w <= |orig| && AllFrom(ls, 0, w)
    ensures InBounds(Fix(ls, 0), |orig|) && EmitEnd(Fix(ls, 0), w) <= |orig|
    ensures Emit(env, orig, Fix(ls, 0), w) + orig[EmitEnd(Fix(ls, 0), w)..] == Weave(env, orig, ls, 0, w)
  {
    AllFromClear(ls, w);
    FixStart(env, ls, 0, w);
    assert ls[0..] == ls;
    EmitMeans(env, orig, ls, 0, w, w);
  }

  lemma {:induction false} AllFromClear(ls: seq<Lump>, w: nat)
    requires AllFrom(ls, 0, w)
    ensures Clear(ls, w)
  {
    if ls != [] && !ls[0].Anchored() { AllFromClear(ls[1..], w); }
  }

  /** Repairing in place keeps the meaning of a list, so edits queued after a length pass
      see the message they would have seen before it. */
  lemma RepairKeepsMeaning(env: Env, orig: string, ls: seq<Lump>)
    requires Sorted(ls) && InBounds(ls, |orig|)
    ensures Sorted(Fix(ls, 0)) && InBounds(Fix(ls, 0), |orig|)
    ensures Weave(env, orig, Fix(ls, 0), 0, 0) == Weave(env, orig, ls, 0, 0)
  {
    FixInBounds(ls, 0, |orig|);
    FixSorted(ls, 0);
    FixIdempotent(env, ls, 0);
    ListMeans(env, orig, ls, 0);
    ListMeans(env, orig, Fix(ls, 0), 0);
  }

  // --- text without an offset ---

  lemma {:induction false} SameSurvivors(orig: string, ls: seq<Lump>, ms: seq<Lump>, a: nat, b: nat)
    requires a <= b <= |orig| && forall k :: Deleted(ls, k) <==> Deleted(ms, k)
    ensures Survivors(orig, ls, a, b) == Survivors(orig, ms, a, b)
    decreases b - a
  {
    hide Deleted;
    if a < b { SameSurvivors(orig, ls, ms, a + 1, b); }
  }

  lemma InsertedKeeps(ls: seq<Lump>, l: Lump, k: nat, n: nat)
    requires k <= |ls| && l.op.Ins? && Sorted(ls) && InBounds(ls, n)
    ensures var ms := ls[..k] + [l] + ls[k..];
      Sorted(ms) && InBounds(ms, n) && forall j :: Deleted(ms, j) <==> Deleted(ls, j)
  {
    var ms := ls[..k] + [l] + ls[k..];
    assert forall i :: 0 <= i < |ms| ==> ms[i] == if i < k then ls[i] else if i == k then l else ls[i - 1];
    InsertedDeletes(ls, l, k);
    hide Deleted;
  }

  lemma InsertedDeletes(ls: seq<Lump>, l: Lump, k: nat)
    requires k <= |ls| && l.op.Ins?
    ensures forall j :: Deleted(ls[..k] + [l] + ls[k..], j) <==> Deleted(ls, j)
  {
    var ms := ls[..k] + [l] + ls[k..];
    forall j: nat | Deleted(ls, j)
      ensures Deleted(ms, j)
    {
      var i :| 0 <= i < |ls| && ls[i].op.Del? && ls[i].op.offset <= j < ls[i].Beyond();
      assert ms[if i < k then i else i + 1] == ls[i];
    }
    forall j: nat | Deleted(ms, j)
      ensures Deleted(ls, j)
    {
      var i :| 0 <= i < |ms| && ms[i].op.Del? && ms[i].op.offset <= j < ms[i].Beyond();
      assert ms[i] == ls[if i < k then i else i - 1];
    }
  }

  /** Text put in front of a list comes out in front of everything else. */
  lemma FrontTextMeans(env: Env, orig: string, ls: seq<Lump>, l: Lump)
    requires InBounds(ls, |orig|) && Sorted(ls) && l.op.Ins?
    ensures InBounds([l] + ls, |orig|) && Sorted([l] + ls)
    ensures Weave(env, orig, [l] + ls, 0, 0) == l.Text(env) + Weave(env, orig, ls, 0, 0)
  {
    assert ls[..0] + [l] + ls[0..] == [l] + ls;
    InsertedKeeps(ls, l, 0, |orig|);
    WeaveBehind(env, orig, l, ls, 0, 0);
  }

  lemma {:induction false} WeaveBehind(env: Env, orig: string, l: Lump, ls: seq<Lump>, i: nat, a: nat)
    requires InBounds(ls, |orig|) && Sorted(ls) && InBounds([l] + ls, |orig|) && Sorted([l] + ls)
    requires i <= |ls| && a <= |orig| && AllFrom(ls, i, a) && forall k :: Deleted([l] + ls, k) <==> Deleted(ls, k)
    ensures AllFrom([l] + ls, i + 1, a)
    ensures Weave(env, orig, [l] + ls, i + 1, a) == Weave(env, orig, ls, i, a)
    decreases |ls| - i
  {
    hide Deleted, Survivors, Lump.Text;
    var ms := [l] + ls;
    assert forall j :: i + 1 <= j < |ms| ==> ms[j] == ls[j - 1];
    if i == |ls| {
      SameSurvivors(orig, ms, ls, a, |orig|);
    } else if ls[i].Anchored() {
      assert ls[i].op.offset <= ls[i].Beyond() <= |orig|;
      SameSurvivors(orig, ms, ls, a, ls[i].op.offset);
      WeaveBehind(env, orig, l, ls, i + 1, ls[i].op.offset);
    } else {
      WeaveBehind(env, orig, l, ls, i + 1, a);
    }
  }

  /** Offset of the last anchored lump from lump i on, or a. */
  function LastAnchor(ls: seq<Lump>, i: nat, a: nat): nat
    requires i <= |ls|
    decreases |ls| - i
  {
    if i == |ls| then a else LastAnchor(ls, i + 1, if ls[i].Anchored() then ls[i].op.offset else a)
  }

  /** Text put behind a list comes out behind all other edits, in front of the bytes that
      survive from the last anchored edit on. */
  lemma BackTextMeans(env: Env, orig: string, ls: seq<Lump>, l: Lump) returns (front: string)
    requires InBounds(ls, |orig|) && Sorted(ls) && l.op.Ins?
    ensures InBounds(ls + [l], |orig|) && Sorted(ls + [l]) && LastAnchor(ls, 0, 0) <= |orig|
    ensures var back := Survivors(orig, ls, LastAnchor(ls, 0, 0), |orig|);
      && Weave(env, orig, ls, 0, 0) == front + back
      && Weave(env, orig, ls + [l], 0, 0) == front + l.Text(env) + back
  {
    assert ls[..|ls|] + [l] + ls[|ls|..] == ls + [l];
    InsertedKeeps(ls, l, |ls|, |orig|);
    front := WeaveBefore(env, orig, ls, l, 0, 0);
  }

  lemma {:induction false} WeaveBefore(env: Env, orig: string, ls: seq<Lump>, l: Lump, i: nat, a: nat)
      returns (front: string)
    requires InBounds(ls, |orig|) && Sorted(ls) && InBounds(ls + [l], |orig|) && Sorted(ls + [l]) && l.op.Ins?
    requires i <= |ls| && a <= |orig| && AllFrom(ls, i, a) && forall k :: Deleted(ls + [l], k) <==> Deleted(ls, k)
    ensures AllFrom(ls + [l], i, a) && LastAnchor(ls, i, a) <= |orig|
    ensures var back := Survivors(orig, ls, LastAnchor(ls, i, a), |orig|);
      && Weave(env, orig, ls, i, a) == front + back
      && Weave(env, orig, ls + [l], i, a) == front + l.Text(env) + back
    decreases |ls| - i
  {
    hide Deleted, Survivors, Lump.Text;
    var ms := ls + [l];
    if i == |ls| {
      front := "";
      SameSurvivors(orig, ms, ls, a, |orig|);
      assert Weave(env, orig, ms, i + 1, a) == Survivors(orig, ms, a, |orig|);
    } else {
      assert ms[i] == ls[i];
      var o := if ls[i].Anchored() then ls[i].op.offset else a;
      if ls[i].Anchored() {
        assert o <= ls[i].Beyond() <= |orig|;
        SameSurvivors(orig, ms, ls, a, o);
      }
      var lead := (if ls[i].Anchored() then Survivors(orig, ls, a, o) else "") + ls[i].Text(env);
      var rest := WeaveBefore(env, orig, ls, l, i + 1, o);
      var back := Survivors(orig, ls, LastAnchor(ls, i + 1, o), |orig|);
      front := lead + rest;
      assert lead + (rest + back) == front + back;
      assert lead + (rest + l.Text(env) + back) == front + l.Text(env) + back;
    }
  }

  /** The edits `ms` write what `ls` write with `value` in front. */
  ghost predicate FirstIn(env: Env, orig: string, ms: seq<Lump>, ls: seq<Lump>, value: string) {
    InBounds(ls, |orig|) && Sorted(ls) ==>
      && InBounds(ms, |orig|) && Sorted(ms)
      && Weave(env, orig, ms, 0, 0) == value + Weave(env, orig, ls, 0, 0)
  }

  ghost predicate WritesFirst(ms: seq<Lump>, ls: seq<Lump>, value: string) {
    forall env, orig :: FirstIn(env, orig, ms, ls, value)
  }

  /** The edits `ms` write what `ls` write with `value` behind all edits, in front of the bytes
      that survive from the last anchored edit on. */
  ghost predicate LastIn(env: Env, orig: string, ms: seq<Lump>, ls: seq<Lump>, value: string) {
    InBounds(ls, |orig|) && Sorted(ls) ==>
      && InBounds(ms, |orig|) && Sorted(ms) && LastAnchor(ls, 0, 0) <= |orig|
      && var w, tail := Weave(env, orig, ls, 0, 0), Survivors(orig, ls, LastAnchor(ls, 0, 0), |orig|);
         |tail| <= |w| && Weave(env, orig, ms, 0, 0) == w[..|w| - |tail|] + value + w[|w| - |tail|..]
  }

  ghost predicate WritesLast(ms: seq<Lump>, ls: seq<Lump>, value: string) {
    forall env, orig :: LastIn(env, orig, ms, ls, value)
  }

  lemma FrontText(ls: seq<Lump>, value: string)
    ensures WritesFirst([Lump(Ins(Add(value)), [], [])] + ls, ls, value)
  {
    hide Weave, InBounds, Sorted;
    var l := Lump(Ins(Add(value)), [], []);
    forall env, orig
      ensures FirstIn(env, orig, [l] + ls, ls, value)
    {
      if InBounds(ls, |orig|) && Sorted(ls) {
        FrontTextMeans(env, orig, ls, l);
        assert l.Text(env) == value;
      }
    }
  }

  lemma BackText(ls: seq<Lump>, value: string)
    ensures WritesLast(ls + [Lump(Ins(Add(value)), [], [])], ls, value)
  {
    hide Weave, Survivors, LastAnchor, InBounds, Sorted;
    var l := Lump(Ins(Add(value)), [], []);
    forall env, orig
      ensures LastIn(env, orig, ls + [l], ls, value)
    {
      if InBounds(ls, |orig|) && Sorted(ls) {
        var front := BackTextMeans(env, orig, ls, l);
        assert l.Text(env) == value;
      }
    }
  }
}
