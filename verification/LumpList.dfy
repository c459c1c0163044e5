/**
  Lump lists as the program keeps them: linked lists grown by the data-lump interface,
  repaired in place by the length pass and copied out by the write pass.  A list is a
  field holding the sequence of its nodes.
*/
module LumpList {
  import opened Words
  import opened LumpText
  import opened LumpModel

  /** Position that the sorted insertion chooses: past every anchored lump whose offset
      is not greater, before the first one whose offset is. */
  predicate SortedSlot(ls: seq<Lump>, offset: nat, k: nat) {
    && k <= |ls|
    && (forall j :: 0 <= j < k && ls[j].Anchored() ==> ls[j].op.offset <= offset)
    && (k < |ls| ==> ls[k].Anchored() && ls[k].op.offset > offset)
  }

  /** There is one such position, and a sorted list stays sorted. */
  lemma SlotKeepsOrder(ls: seq<Lump>, l: Lump, k: nat)
    requires Sorted(ls) && l.Anchored() && SortedSlot(ls, l.op.offset, k)
    ensures Sorted(ls[..k] + [l] + ls[k..])
    ensures forall k': nat :: SortedSlot(ls, l.op.offset, k') ==> k' == k
  {
  }

  /** The list with `l` linked in where the insertion loop puts it. */
  function Linked(ls: seq<Lump>, l: Lump): seq<Lump>
    requires l.Anchored()
  {
    if ls == [] || (ls[0].Anchored() && ls[0].op.offset > l.op.offset) then [l] + ls
    else [ls[0]] + Linked(ls[1..], l)
  }

  lemma {:induction false} LinkedAt(ls: seq<Lump>, l: Lump, k: nat)
    requires l.Anchored() && SortedSlot(ls, l.op.offset, k)
    ensures Linked(ls, l) == ls[..k] + [l] + ls[k..]
  {
    if k > 0 {
      LinkedAt(ls[1..], l, k - 1);
    }
  }

  /** Every list has such a position. */
  lemma {:induction false} SlotExists(ls: seq<Lump>, offset: nat) returns (k: nat)
    ensures SortedSlot(ls, offset, k)
  {
    if ls == [] || (ls[0].Anchored() && ls[0].op.offset > offset) {
      k := 0;
    } else {
      var k' := SlotExists(ls[1..], offset);
      k := k' + 1;
    }
  }

  class LumpList {
    var lumps: seq<Lump>

    constructor ()
      ensures lumps == []
    {
      lumps := [];
    }

    /** append_new_lump */
    method AppendNew(value: string)
      modifies this
      ensures lumps == old(lumps) + [Lump(Ins(Add(value)), [], [])] && WritesLast(lumps, old(lumps), value)
    {
      hide WritesLast;
      BackText(lumps, value);
      lumps := lumps + [Lump(Ins(Add(value)), [], [])];
    }

    /** insert_new_lump */
    method InsertNew(value: string)
      modifies this
      ensures lumps == [Lump(Ins(Add(value)), [], [])] + old(lumps) && WritesFirst(lumps, old(lumps), value)
    {
      hide WritesFirst;
      FrontText(lumps, value);
      lumps := [Lump(Ins(Add(value)), [], [])] + lumps;
    }

    /** insert_{new,subst,cond}_lump_after on lump `k` (pos 0) or on node pos-1 of its chain. */
    method InsertAfter(k: nat, pos: nat, c: Chunk)
      requires k < |lumps| && pos <= |lumps[k].after|
      modifies this
      ensures |lumps| == old(|lumps|)
      ensures lumps == old(lumps)[k := old(lumps[k].(after := lumps[k].after[..pos] + [c] + lumps[k].after[pos..]))]
    {
      var l := lumps[k];
      lumps := lumps[k := l.(after := l.after[..pos] + [c] + l.after[pos..])];
    }

    /** insert_{new,subst,cond}_lump_before on lump `k` (pos 0) or on node pos-1 of its chain. */
    method InsertBefore(k: nat, pos: nat, c: Chunk)
      requires k < |lumps| && pos <= |lumps[k].before|
      modifies this
      ensures |lumps| == old(|lumps|)
      ensures lumps == old(lumps)[k := old(lumps[k].(before := lumps[k].before[..pos] + [c] + lumps[k].before[pos..]))]
    {
      var l := lumps[k];
      lumps := lumps[k := l.(before := l.before[..pos] + [c] + l.before[pos..])];
    }

    /** The insertion loop shared by del_lump and anchor_lump. */
    method InsertSorted(l: Lump) returns (k: nat)
      requires l.Anchored()
      modifies this
      ensures SortedSlot(old(lumps), l.op.offset, k)
      ensures lumps == Linked(old(lumps), l) == old(lumps)[..k] + [l] + old(lumps)[k..]
      ensures old(Sorted(lumps)) ==> Sorted(lumps)
    {
      k := 0;
      while k < |lumps| && !(lumps[k].Anchored() && lumps[k].op.offset > l.op.offset)
        invariant k <= |lumps|
        invariant forall j :: 0 <= j < k && lumps[j].Anchored() ==> lumps[j].op.offset <= l.op.offset
      {
        k := k + 1;
      }
      if Sorted(lumps) { SlotKeepsOrder(lumps, l, k); }
      LinkedAt(lumps, l, k);
      lumps := lumps[..k] + [l] + lumps[k..];
    }

    /** One before/after loop of lumps_len. */
    static method CountChain(env: Env, chain: seq<Chunk>, acc: u32) returns (total: u32)
      ensures total == Wrap(acc + ChainLen(env, chain))
    {
      total := acc;
      var i := 0;
      assert chain[0..] == chain;
      while i < |chain|
        invariant i <= |chain|
        invariant Wrap(total + ChainLen(env, chain[i..])) == Wrap(acc + ChainLen(env, chain))
      {
        assert chain[i..][0] == chain[i] && chain[i..][1..] == chain[i + 1..];
        if chain[i].Opt? && !CheckOpt(env, chain[i].cond) {
          return;
        }
        WrapAdd(total + ChunkLen(env, chain[i]), ChainLen(env, chain[i + 1..]));
        total := Wrap(total + ChunkLen(env, chain[i]));
        i := i + 1;
      }
    }

    /** Body of the lumps_len loop: counts one lump and repairs it against the bytes
        already accounted for. */
    static method CountLump(env: Env, l: Lump, s: u32, acc: u32, ghost n: u32)
        returns (t: Lump, sOffset: u32, newLen: u32)
      requires s <= n && (l.Anchored() ==> l.Beyond() <= n)
      ensures t == Repair(l, s) && sOffset == Advance(t, s) && sOffset <= n
      ensures newLen == Wrap(acc + t.Count(env) - t.Cut())
    {
      hide Wrap, ChunkLen, ChainLen, CheckOpt;
      t, sOffset, newLen := l, s, acc;
      WrapId(acc);
      if l.Hidden(env) { return; }
      newLen := CountChain(env, t.before, newLen);
      match l.op {
        case Ins(c) =>
          WrapAdd(acc + ChainLen(env, l.before), ChunkLen(env, c));
          newLen := Wrap(newLen + ChunkLen(env, c));
        case Del(offset, len) =>
          if offset < sOffset {
            t := t.(op := Del(sOffset, if len > sOffset - offset then len - (sOffset - offset) else 0));
          }
          sOffset := t.op.offset + t.op.len;
          WrapAdd(acc + ChainLen(env, l.before), 0 - t.op.len);
          newLen := Wrap(newLen - t.op.len);
        case Nop(offset, len) =>
          if offset < sOffset {
            t := t.(op := Nop(sOffset, len));
          } else {
            sOffset := offset;
          }
      }
      ghost var mid := acc + ChainLen(env, l.before) + (if l.op.Ins? then ChunkLen(env, l.op.chunk) else 0) - t.Cut();
      assert newLen == Wrap(mid);
      WrapAdd(mid, ChainLen(env, l.after));
      newLen := CountChain(env, t.after, newLen);
    }

    /** lumps_len: repairs overlaps in place and returns the length change, truncated to
        an unsigned int. `n` is the length of the message the offsets refer to. */
    method LumpsLen(env: Env, ghost n: u32) returns (newLen: u32)
      requires InBounds(lumps, n)
      modifies this
      ensures lumps == Fix(old(lumps), 0) && InBounds(lumps, n) && Sorted(lumps)
      ensures newLen == Wrap(Delta(env, old(lumps), 0))
    {
      hide Wrap, Lump.Count, Lump.Cut, Repair, Advance, Fix, Delta;
      ghost var was := lumps;
      newLen := 0;
      var i: nat := 0;
      var sOffset: u32 := 0;
      assert was[0..] == was;
      while i < |lumps|
        invariant i <= |lumps| == |was| && lumps[i..] == was[i..]
        invariant lumps[..i] + Fix(was[i..], sOffset) == Fix(was, 0)
        invariant sOffset <= n
        invariant Wrap(newLen + Delta(env, was[i..], sOffset)) == Wrap(Delta(env, was, 0))
      {
        assert lumps[i] == lumps[i..][0] == was[i..][0] == was[i];
        FixUnfold(env, was, i, sOffset);
        ghost var done, len0 := lumps[..i], newLen;
        var t;
        t, sOffset, newLen := CountLump(env, lumps[i], sOffset, newLen, n);
        WrapAdd(len0 + t.Count(env) - t.Cut(), Delta(env, was[i + 1..], sOffset));
        assert done + ([t] + Fix(was[i + 1..], sOffset)) == (done + [t]) + Fix(was[i + 1..], sOffset);
        lumps := lumps[i := t];
        assert lumps[..i + 1] == done + [t];
        i := i + 1;
      }
      FixUnfold(env, was, i, sOffset);
      WrapId(newLen);
      assert lumps[..i] == lumps;
      FixInBounds(was, 0, n);
      FixSorted(was, 0);
    }

    static lemma FixUnfold(env: Env, ls: seq<Lump>, i: nat, s: nat)
      requires i <= |ls|
      ensures i == |ls| ==> Fix(ls[i..], s) == [] && Delta(env, ls[i..], s) == 0
      ensures i < |ls| ==>
        var r := Repair(ls[i], s);
        && Fix(ls[i..], s) == [r] + Fix(ls[i + 1..], Advance(r, s))
        && Delta(env, ls[i..], s) == r.Count(env) - r.Cut() + Delta(env, ls[i + 1..], Advance(r, s))
    {
    }

    /** One before/after loop of process_lumps. */
    static method WriteChain(env: Env, chain: seq<Chunk>, buf: array<char>, at: nat) returns (offset: nat)
      requires at + |ChainText(env, chain)| <= buf.Length
      modifies buf
      ensures offset == at + |ChainText(env, chain)|
      ensures buf[..offset] == old(buf[..at]) + ChainText(env, chain)
    {
      hide ChunkText, SubstText, ChunkLen, SubstLen, CheckOpt;
      offset := at;
      var i := 0;
      ghost var goal := ChainText(env, chain);
      ghost var done: string := "";
      assert chain[0..] == chain;
      while i < |chain|
        invariant i <= |chain|
        invariant done + ChainText(env, chain[i..]) == goal
        invariant offset == at + |done|
        invariant buf[..offset] == old(buf[..at]) + done
      {
        assert chain[i..][0] == chain[i] && chain[i..][1..] == chain[i + 1..];
        if chain[i].Opt? && !CheckOpt(env, chain[i].cond) {
          assert done == goal;
          return;
        }
        ghost var piece := ChunkText(env, chain[i]);
        ghost var tail := ChainText(env, chain[i + 1..]);
        assert done + (piece + tail) == (done + piece) + tail;
        CopyInto(buf, offset, ChunkText(env, chain[i]));
        assert old(buf[..at]) + done + piece == old(buf[..at]) + (done + piece);
        done := done + piece;
        offset := offset + |ChunkText(env, chain[i])|;
        i := i + 1;
      }
      assert done == goal;
    }

    /** Text of one lump, written at `at`. */
    static method WriteLump(env: Env, t: Lump, buf: array<char>, at: nat) returns (offset: nat)
      requires !t.Hidden(env)
      requires at + |t.Text(env)| <= buf.Length
      modifies buf
      ensures offset == at + |t.Text(env)|
      ensures buf[..offset] == old(buf[..at]) + t.Text(env)
    {
      hide ChunkText, ChainText, CheckOpt;
      ghost var b := ChainText(env, t.before);
      ghost var m := if t.op.Ins? then ChunkText(env, t.op.chunk) else "";
      ghost var pre := buf[..at];
      offset := WriteChain(env, t.before, buf, at);
      if t.op.Ins? {
        CopyInto(buf, offset, ChunkText(env, t.op.chunk));
        offset := offset + |ChunkText(env, t.op.chunk)|;
      }
      assert buf[..offset] == pre + b + m;
      offset := WriteChain(env, t.after, buf, offset);
      assert pre + b + m + ChainText(env, t.after) == pre + t.Text(env);
    }

    /** Body of the process_lumps loop. */
    static method WriteStep(env: Env, orig: string, t: Lump, buf: array<char>, at: nat, s: nat)
      returns (offset: nat, sOffset: nat)
      requires s <= |orig| && (t.Anchored() ==> t.Beyond() <= |orig|)
      requires at + |EmitPiece(env, orig, t, s)| <= buf.Length
      modifies buf
      ensures sOffset == EmitNext(t, s) && offset == at + |EmitPiece(env, orig, t, s)|
      ensures buf[..offset] == old(buf[..at]) + EmitPiece(env, orig, t, s)
    {
      hide Lump.Text, ChainText, ChunkText, CheckOpt;
      HiddenIsEmpty(env, t);
      offset, sOffset := at, s;
      ghost var pre := buf[..at];
      if t.Anchored() {
        if s <= t.op.offset {
          CopyInto(buf, offset, orig[s..t.op.offset]);
          offset := offset + (t.op.offset - s);
          offset := WriteLump(env, t, buf, offset);
          assert pre + orig[s..t.op.offset] + t.Text(env) == pre + EmitPiece(env, orig, t, s);
          sOffset := t.Beyond();
        }
      } else if !t.Hidden(env) {
        offset := WriteLump(env, t, buf, offset);
      }
    }

    static lemma HiddenIsEmpty(env: Env, t: Lump)
      ensures t.Hidden(env) ==> t.Text(env) == ""
    {
    }

    /** process_lumps: copies `orig` from sOffset on into buf from `at` on, applying the list. */
    method ProcessLumps(env: Env, orig: string, buf: array<char>, at: nat, origOffset: nat)
      returns (offset: nat, sOffset: nat)
      requires InBounds(lumps, |orig|) && origOffset <= |orig|
      requires at + |Emit(env, orig, lumps, origOffset)| <= buf.Length
      modifies buf
      ensures sOffset == EmitEnd(lumps, origOffset) && sOffset <= |orig|
      ensures offset == at + |Emit(env, orig, lumps, origOffset)|
      ensures buf[..offset] == old(buf[..at]) + Emit(env, orig, lumps, origOffset)
    {
      hide EmitPiece, EmitNext, Lump.Text;
      offset, sOffset := at, origOffset;
      ghost var pre := buf[..at];
      ghost var done: string := "";
      var i := 0;
      assert lumps[0..] == lumps;
      while i < |lumps|
        invariant i <= |lumps| && sOffset <= |orig|
        invariant InBounds(lumps[i..], |orig|)
        invariant EmitEnd(lumps[i..], sOffset) == EmitEnd(lumps, origOffset)
        invariant done + Emit(env, orig, lumps[i..], sOffset) == Emit(env, orig, lumps, origOffset)
        invariant offset == at + |done|
        invariant buf[..offset] == pre + done
      {
        assert lumps[i..][0] == lumps[i] && lumps[i..][1..] == lumps[i + 1..];
        EmitUnfold(env, orig, lumps[i..], sOffset);
        ghost var piece := EmitPiece(env, orig, lumps[i], sOffset);
        ghost var tail := Emit(env, orig, lumps[i + 1..], EmitNext(lumps[i], sOffset));
        assert done + (piece + tail) == (done + piece) + tail;
        offset, sOffset := WriteStep(env, orig, lumps[i], buf, offset, sOffset);
        assert pre + done + piece == pre + (done + piece);
        done := done + piece;
        i := i + 1;
      }
      assert lumps[i..] == [];
    }
  }
}
