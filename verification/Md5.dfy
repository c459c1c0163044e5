/**
  Streaming MD5: a context that takes a message in pieces of any size, against the one-shot
  definition of RFC 1321.  The block function is a parameter, so the results hold for any.
*/
module Md5 {
  import opened Words

  type Byte = x: int | 0 <= x < 256

  /** The four state words. */
  type Words4 = s: seq<u32> | |s| == 4 witness [0, 0, 0, 0]

  type Block = b: seq<Byte> | |b| == 64 witness seq(64, _ => 0)

  /** MD5Transform */
  type Transform = (Words4, Block) -> Words4

  const INIT: Words4 := [0x67452301, 0xefcdab89, 0x98badcfe, 0x10325476]

  function Zeros(n: nat): (z: seq<Byte>)
    ensures |z| == n
  {
    seq(n, _ => 0)
  }

  // --- words and bytes ---

  function LowByte(x: int): Byte {
    x % 256
  }

  /** Little-endian bytes of a word. */
  function EncodeWord(w: u32): (b: seq<Byte>)
    ensures |b| == 4
  {
    [LowByte(w), LowByte(w / 0x100), LowByte(w / 0x1_0000), LowByte(w / 0x100_0000)]
  }

  function DecodeWord(b: seq<Byte>): u32
    requires |b| == 4
  {
    Compose(b[0], b[1], b[2], b[3])
  }

  function Compose(b0: int, b1: int, b2: int, b3: int): int {
    b0 + b1 * 0x100 + b2 * 0x1_0000 + b3 * 0x100_0000
  }

  function EncodeAll(ws: seq<u32>): (b: seq<Byte>)
    ensures |b| == 4 * |ws| && |b| % 4 == 0
  {
    if ws == [] then [] else EncodeAll(ws[..|ws| - 1]) + EncodeWord(ws[|ws| - 1])
  }

  function DecodeAll(b: seq<Byte>): (ws: seq<u32>)
    requires |b| % 4 == 0
    ensures |ws| == |b| / 4
  {
    if b == [] then [] else DecodeAll(b[..|b| - 4]) + [DecodeWord(b[|b| - 4..])]
  }

  lemma DecodeEncodeWord(w: u32)
    ensures DecodeWord(EncodeWord(w)) == w
  {
    DivideTwice(w);
  }

  lemma DivideTwice(w: u32)
    ensures w / 0x1_0000 == w / 0x100 / 0x100 && w / 0x100_0000 == w / 0x100 / 0x100 / 0x100 < 256
  {
  }

  lemma EncodeDecodeWord(b: seq<Byte>)
    requires |b| == 4
    ensures EncodeWord(DecodeWord(b)) == b
  {
    hide LowByte;
    var b0: int, b1: int, b2: int, b3: int := b[0], b[1], b[2], b[3];
    var w2: int := b3 * 0x100 + b2;
    var w1: int := w2 * 0x100 + b1;
    var w: int := w1 * 0x100 + b0;
    assert w == DecodeWord(b);
    DivideTwice(w);
    Peel(w1, b0);
    Peel(w2, b1);
    Peel(b3, b2);
    Peel(0, b3);
  }

  lemma Peel(high: int, low: int)
    requires 0 <= low < 256
    ensures (high * 0x100 + low) / 0x100 == high && LowByte(high * 0x100 + low) == low
  {
  }

  /** Encode and Decode undo each other. */
  lemma {:induction false} DecodeEncode(ws: seq<u32>)
    ensures DecodeAll(EncodeAll(ws)) == ws
  {
    hide EncodeWord, DecodeWord, DecodeAll;
    if ws == [] {
      DecodeNothing();
    } else {
      var init, last := ws[..|ws| - 1], ws[|ws| - 1];
      DecodeEncode(init);
      DecodeEncodeWord(last);
      DecodeSnoc(EncodeAll(init), EncodeWord(last));
    }
  }

  lemma DecodeNothing()
    ensures DecodeAll([]) == []
  {
  }

  lemma DecodeSnoc(a: seq<Byte>, w: seq<Byte>)
    requires |a| % 4 == 0 && |w| == 4
    ensures DecodeAll(a + w) == DecodeAll(a) + [DecodeWord(w)]
  {
  }

  lemma {:induction false} EncodeDecode(b: seq<Byte>)
    requires |b| % 4 == 0
    ensures EncodeAll(DecodeAll(b)) == b
  {
    hide EncodeWord, DecodeWord;
    if b != [] {
      var ws := DecodeAll(b);
      var init, last := b[..|b| - 4], b[|b| - 4..];
      assert ws[..|ws| - 1] == DecodeAll(init) && ws[|ws| - 1] == DecodeWord(last);
      EncodeDecode(init);
      EncodeDecodeWord(last);
      assert b == init + last;
    }
  }

  // --- the definition ---

  /** Sections 3.1 and 3.2 of RFC 1321: a one bit, zeros up to 56 modulo 64 bytes, and the
      bit length modulo 2^64, low word first. */
  function Padding(n: nat): seq<Byte> {
    [0x80] + Zeros((119 - n % 64) % 64) + EncodeAll([Wrap(8 * n), Wrap(8 * n / 0x1_0000_0000)])
  }

  function Fold(f: Transform, st: Words4, m: seq<Byte>): Words4
    requires |m| % 64 == 0
  {
    if m == [] then st else f(Fold(f, st, m[..|m| - 64]), m[|m| - 64..])
  }

  lemma PaddedLength(n: nat)
    ensures (n + |Padding(n)|) % 64 == 0
  {
    hide EncodeAll;
    var r := n % 64;
    var z := (119 - r) % 64;
    assert |Padding(n)| == 9 + z;
    assert (r + 9 + z) % 64 == 0;
    ModShift(r + 9 + z, n / 64);
  }

  function Digest(f: Transform, m: seq<Byte>): seq<Byte> {
    PaddedLength(|m|);
    EncodeAll(Fold(f, INIT, m + Padding(|m|)))
  }

  // --- the counter ---

  /** The 64-bit counter, kept in two words, after n bytes. */
  predicate Counts(lo: u32, hi: u32, n: nat) {
    lo == Wrap(8 * n) && hi == Wrap(8 * n / 0x1_0000_0000)
  }

  /** The byte count modulo 64, as read off the low word. */
  lemma IndexFromCount(lo: u32, n: nat)
    requires lo == Wrap(8 * n)
    ensures lo / 8 % 64 == n % 64
  {
    var q := 8 * n / 0x1_0000_0000;
    assert 8 * n == q * 0x1_0000_0000 + lo;
    assert lo == 8 * (n - q * 0x2000_0000);
    assert lo / 8 == n - q * 0x2000_0000;
    assert n == lo / 8 + (q * 0x80_0000) * 64;
    ModShift(lo / 8, q * 0x80_0000);
  }

  lemma ModShift(a: int, k: int)
    ensures (a + k * 64) % 64 == a % 64
  {
  }

  /** Adding n bytes with a carry detected by comparison. */
  lemma CountStep(lo: u32, hi: u32, n: nat, k: u32)
    requires Counts(lo, hi, n)
    ensures var bits := Wrap(k * 8);
      var lo' := Wrap(lo + bits);
      var hi' := Wrap(Wrap(hi + if lo' < bits then 1 else 0) + k / 0x2000_0000);
      Counts(lo', hi', n + k)
  {
    var two32 := 0x1_0000_0000;
    var q, bits, top := 8 * n / two32, Wrap(k * 8), k / 0x2000_0000;
    assert 8 * n == q * two32 + lo;
    assert k * 8 == top * two32 + bits;
    var carry := if lo + bits >= two32 then 1 else 0;
    var lo' := lo + bits - carry * two32;
    assert lo' == Wrap(lo + bits) && (lo' < bits <==> carry == 1);
    assert 8 * (n + k) == (q + top + carry) * two32 + lo';
    assert 8 * (n + k) / two32 == q + top + carry && Wrap(8 * (n + k)) == lo' by { DivMod(q + top + carry, lo'); }
    WrapAdd(q, carry);
    WrapAdd(q + carry, top);
  }

  lemma DivMod(q: int, r: u32)
    ensures (q * 0x1_0000_0000 + r) / 0x1_0000_0000 == q && Wrap(q * 0x1_0000_0000 + r) == r
  {
  }

  // --- absorbing bytes ---

  /** Number of bytes of a message of length n that are in whole blocks. */
  function Whole(n: nat): (w: nat)
    ensures w <= n < w + 64 && w % 64 == 0
  {
    n - n % 64
  }

  lemma {:induction false} FoldAppend(f: Transform, st: Words4, a: seq<Byte>, b: Block)
    requires |a| % 64 == 0
    ensures Fold(f, st, a + b) == f(Fold(f, st, a), b)
  {
  }

  /** Whole blocks of a longer message: the blocks before and one more. */
  lemma FoldBlock(f: Transform, m: seq<Byte>, p: nat)
    requires p % 64 == 0 && p + 64 <= |m|
    ensures (p + 64) % 64 == 0 && Fold(f, INIT, m[..p + 64]) == f(Fold(f, INIT, m[..p]), m[p..p + 64])
  {
    assert m[..p + 64] == m[..p] + m[p..p + 64];
    FoldAppend(f, INIT, m[..p], m[p..p + 64]);
  }

  /** The guard `i + 63 < inputLen` is computed on unsigned ints: at the last block boundary
      it stops the loop exactly when i + 63 does not wrap around. */
  lemma GuardStops(i: u32, n: u32)
    requires i <= n <= i + 63
    ensures Wrap(i + 63) < n <==> i + 63 >= TWO32
  {
  }

  /** Exactly the update sizes the block loop handles: the last block boundary inside the
      input, plus 63, must be an unsigned int. */
  predicate UpdateFits(have: nat, n: u32) {
    n < 64 - have % 64 || n - (have + n) % 64 + 63 < TWO32
  }

  /** Every update of at most 2^32 - 64 bytes fits. */
  lemma ShortUpdatesFit(have: nat, n: u32)
    requires n <= TWO32 - 64
    ensures UpdateFits(have, n)
  {
  }

  /** For every other size the loop goes on past the end of the input. */
  lemma LongUpdateRunsOver(have: nat, n: u32)
    requires !UpdateFits(have, n)
    ensures var i := n - (have + n) % 64; 0 <= i && (have + i) % 64 == 0 && i + 63 >= n && Wrap(i + 63) < n
  {
  }

  /** The longest update behind a single byte. */
  lemma LongestUpdateRunsOver()
    ensures !UpdateFits(1, 0xffff_ffff)
  {
    assert (1 + 0xffff_ffff) % 64 == 0;
  }

  class Context {
    const f: Transform
    const buffer: array<Byte>
    var state: Words4
    var count0: u32
    var count1: u32

    /** MD5Init */
    constructor (f: Transform)
      ensures this.f == f && fresh(buffer) && Holds([])
    {
      this.f := f;
      buffer := new Byte[64];
      state, count0, count1 := INIT, 0, 0;
      new;
      EmptyHolds();
    }

    lemma EmptyHolds()
      requires buffer.Length == 64 && state == INIT && count0 == 0 && count1 == 0
      ensures Holds([])
    {
    }

    /** The context has absorbed `m`: whole blocks folded, the rest buffered, bits counted. */
    ghost predicate Holds(m: seq<Byte>)
      reads this, buffer
    {
      && buffer.Length == 64
      && state == Fold(f, INIT, m[..Whole(|m|)])
      && buffer[..|m| % 64] == m[Whole(|m|)..]
      && Counts(count0, count1, |m|)
    }

    /** MD5_memcpy into the buffer */
    method Fill(index: nat, input: seq<Byte>)
      requires buffer.Length == 64 && index + |input| <= 64
      modifies buffer
      ensures buffer[..index + |input|] == old(buffer[..index]) + input
    {
      for i := 0 to |input|
        invariant forall j :: 0 <= j < index ==> buffer[j] == old(buffer[j])
        invariant forall j :: 0 <= j < i ==> buffer[index + j] == input[j]
      {
        buffer[index + i] := input[i];
      }
      forall j | 0 <= j < index + |input|
        ensures buffer[..index + |input|][j] == (old(buffer[..index]) + input)[j]
      {
        if j >= index { assert buffer[index + (j - index)] == input[j - index]; }
      }
    }

    /** The two-word counter. */
    method AddCount(n: u32, ghost had: nat)
      requires Counts(count0, count1, had)
      modifies this`count0, this`count1
      ensures Counts(count0, count1, had + n)
    {
      hide Counts, Wrap;
      CountStep(count0, count1, had, n);
      var bits := Wrap(n * 8);
      count0 := Wrap(count0 + bits);
      count1 := Wrap(Wrap(count1 + if count0 < bits then 1 else 0) + n / 0x2000_0000);
    }

    /** MD5Update */
    method Update(input: seq<Byte>, ghost m: seq<Byte>)
      requires |input| < TWO32 && Holds(m) && UpdateFits(|m|, |input|)
      modifies this, buffer
      ensures Holds(m + input)
    {
      hide Fold;
      IndexFromCount(count0, |m|);
      var index := count0 / 8 % 64;
      AddCount(|input|, |m|);
      ghost var all := m + input;
      var partLen := 64 - index;
      var i := 0;
      if |input| >= partLen {
        FirstBlock(m, input);
        Fill(index, input[..partLen]);
        assert buffer[..] == m[Whole(|m|)..] + input[..partLen];
        state := f(state, buffer[..]);
        i := Blocks(input, partLen, m);
        index := 0;
      }
      Fill(index, input[i..]);
      TailBytes(m, input, i);
    }

    /** Buffer plus the start of the input is the next block. */
    static lemma FirstBlock(m: seq<Byte>, input: seq<Byte>)
      requires |input| >= 64 - |m| % 64
      ensures var p, w := 64 - |m| % 64, Whole(|m|);
        && w + 64 == |m| + p <= |m + input|
        && (m + input)[w..w + 64] == m[w..] + input[..p] && (m + input)[..w] == m[..w]
    {
    }

    /** The block loop over the input. */
    method Blocks(input: seq<Byte>, start: nat, ghost m: seq<Byte>) returns (i: nat)
      requires start == 64 - |m| % 64 <= |input| < TWO32 && UpdateFits(|m|, |input|)
      requires state == f(Fold(f, INIT, m[..Whole(|m|)]), (m + input)[Whole(|m|)..Whole(|m|) + 64])
      modifies this`state
      ensures i <= |input| && |m| + i == Whole(|m| + |input|)
      ensures state == Fold(f, INIT, (m + input)[..|m| + i])
    {
      hide Fold, Wrap;
      ghost var all := m + input;
      assert all[..Whole(|m|)] == m[..Whole(|m|)];
      FoldBlock(f, all, Whole(|m|));
      i := start;
      BoundaryStops(|m|, |input|, i);
      while Wrap(i + 63) < |input|
        invariant start <= i <= |input| && (|m| + i) % 64 == 0
        invariant Wrap(i + 63) < |input| <==> i + 63 < |input|
        invariant state == Fold(f, INIT, all[..|m| + i])
        decreases |input| - i
      {
        InputBlock(m, input, i);
        FoldBlock(f, all, |m| + i);
        state := f(state, input[i..i + 64]);
        i := i + 64;
        BoundaryStops(|m|, |input|, i);
      }
      LastBoundary(|m|, |input|, i);
    }

    static lemma InputBlock(m: seq<Byte>, input: seq<Byte>, i: nat)
      requires i + 64 <= |input|
      ensures (m + input)[|m| + i..|m| + i + 64] == input[i..i + 64]
    {
    }

    /** Under UpdateFits the guard as written is the guard as meant. */
    static lemma BoundaryStops(have: nat, n: u32, i: nat)
      requires UpdateFits(have, n) && 64 - have % 64 <= n && i <= n && (have + i) % 64 == 0
      ensures Wrap(i + 63) < n <==> i + 63 < n
    {
    }

    static lemma LastBoundary(have: nat, n: nat, i: nat)
      requires (have + i) % 64 == 0 && i <= n <= i + 63
      ensures have + i == Whole(have + n) && i == n - (have + n) % 64
    {
    }

    /** What is left goes to the front of the buffer, or behind what is there. */
    static lemma TailBytes(m: seq<Byte>, input: seq<Byte>, i: nat)
      requires i <= |input|
      requires (i == 0 && |m| % 64 + |input| < 64) || |m| + i == Whole(|m| + |input|)
      ensures var all := m + input;
        && (i == 0 && |m| % 64 + |input| < 64 ==>
              Whole(|all|) == Whole(|m|) && |all| % 64 == |m| % 64 + |input|
              && all[..Whole(|m|)] == m[..Whole(|m|)] && all[Whole(|m|)..] == m[Whole(|m|)..] + input)
        && (|m| + i == Whole(|m| + |input|) ==> all[Whole(|all|)..] == input[i..] && |all| % 64 == |input| - i)
    {
    }

    /** Encode */
    static method Encode(output: array<Byte>, input: seq<u32>)
      requires output.Length == 4 * |input|
      modifies output
      ensures output[..] == EncodeAll(input)
    {
      hide EncodeAll;
      var i, j := 0, 0;
      EncodeNothing();
      assert input[..0] == [];
      while j < output.Length
        invariant 0 <= i <= |input| && j == 4 * i
        invariant output[..j] == EncodeAll(input[..i])
      {
        ghost var done := output[..j];
        output[j] := LowByte(input[i]);
        output[j + 1] := LowByte(input[i] / 0x100);
        output[j + 2] := LowByte(input[i] / 0x1_0000);
        output[j + 3] := LowByte(input[i] / 0x100_0000);
        assert output[..j + 4] == done + EncodeWord(input[i]);
        EncodeSnoc(input, i);
        i, j := i + 1, j + 4;
      }
      assert input[..i] == input && output[..j] == output[..];
    }

    static lemma EncodeNothing()
      ensures EncodeAll([]) == []
    {
    }

    static lemma EncodeSnoc(ws: seq<u32>, i: nat)
      requires i < |ws|
      ensures EncodeAll(ws[..i + 1]) == EncodeAll(ws[..i]) + EncodeWord(ws[i])
    {
      assert ws[..i + 1][..i] == ws[..i];
    }

    /** Both updates of MD5Final: the padding bytes and the length. */
    method Pad(ghost m: seq<Byte>)
      requires Holds(m)
      modifies this, buffer
      ensures buffer.Length == 64
      ensures (|m| + |Padding(|m|)|) % 64 == 0 && state == Fold(f, INIT, m + Padding(|m|))
    {
      hide Fold, EncodeAll;
      var bits := new Byte[8];
      Encode(bits, [count0, count1]);
      IndexFromCount(count0, |m|);
      var index := count0 / 8 % 64;
      var padLen := if index < 56 then 56 - index else 120 - index;
      PadPieces(m, padLen);
      var pad := [0x80] + Zeros(padLen - 1);
      Update(pad, m);
      Update(bits[..], m + pad);
      ghost var all := m + Padding(|m|);
      assert m + pad + bits[..] == all;
      assert all[..Whole(|all|)] == all;
    }

    static lemma PadPieces(m: seq<Byte>, padLen: nat)
      requires padLen == if |m| % 64 < 56 then 56 - |m| % 64 else 120 - |m| % 64
      ensures padLen >= 1
      ensures var pad := [0x80] + Zeros(padLen - 1);
        && UpdateFits(|m|, |pad|) && UpdateFits(|m + pad|, 8)
        && m + pad + EncodeAll([Wrap(8 * |m|), Wrap(8 * |m| / 0x1_0000_0000)]) == m + Padding(|m|)
      ensures (|m| + |Padding(|m|)|) % 64 == 0 && Whole(|m + Padding(|m|)|) == |m + Padding(|m|)|
    {
      hide EncodeAll, Wrap;
      PaddedLength(|m|);
      assert padLen - 1 == (119 - |m| % 64) % 64;
    }

    /** MD5Final: pads, hashes the length, writes the digest and clears the context. */
    method Final(digest: array<Byte>, ghost m: seq<Byte>)
      requires digest.Length == 16 && digest != buffer && Holds(m)
      modifies this, buffer, digest
      ensures digest[..] == Digest(f, m)
      ensures state == [0, 0, 0, 0] && count0 == 0 && count1 == 0
      ensures buffer.Length == 64 && forall i :: 0 <= i < 64 ==> buffer[i] == 0
    {
      hide Fold, EncodeAll, Counts, Whole;
      Pad(m);
      Encode(digest, state);
      state, count0, count1 := [0, 0, 0, 0], 0, 0;
      for i := 0 to 64
        invariant forall j :: 0 <= j < i ==> buffer[j] == 0
        invariant digest[..] == Digest(f, m)
        invariant state == [0, 0, 0, 0] && count0 == 0 && count1 == 0
      {
        buffer[i] := 0;
      }
    }
  }

  function Join(parts: seq<seq<Byte>>): seq<Byte> {
    if parts == [] then [] else Join(parts[..|parts| - 1]) + parts[|parts| - 1]
  }

  lemma JoinStep(parts: seq<seq<Byte>>, k: nat)
    requires k <= |parts|
    ensures k == 0 ==> Join(parts[..k]) == []
    ensures k < |parts| ==> Join(parts[..k + 1]) == Join(parts[..k]) + parts[k]
  {
    if k < |parts| { assert parts[..k + 1][..k] == parts[..k]; }
  }

  /** A message hashed in any number of pieces of any size up to 2^32 - 64 bytes: the digest
      is that of the whole message. */
  method Hash(f: Transform, parts: seq<seq<Byte>>) returns (digest: seq<Byte>)
    requires forall i :: 0 <= i < |parts| ==> |parts[i]| <= TWO32 - 64
    ensures digest == Digest(f, Join(parts))
  {
    hide Digest, UpdateFits, Join, Context.Holds;
    var ctx := new Context(f);
    JoinStep(parts, 0);
    for k := 0 to |parts|
      invariant fresh(ctx) && fresh(ctx.buffer) && ctx.f == f
      invariant ctx.Holds(Join(parts[..k]))
    {
      ShortUpdatesFit(|Join(parts[..k])|, |parts[k]|);
      JoinStep(parts, k);
      ctx.Update(parts[k], Join(parts[..k]));
    }
    assert parts[..|parts|] == parts;
    var out := new Byte[16];
    ctx.Final(out, Join(parts));
    digest := out[..];
  }
}
