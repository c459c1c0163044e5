/** Machine words and small shared types. */
module Words {

  datatype Option<+T> = None | Some(value: T)

  datatype AddressFamily = Inet | Inet6

  /** A piece of a message: where it starts and how long it is. */
  datatype Span = Span(offset: nat, len: nat)

  const TWO32: int := 0x1_0000_0000

  /** The value of a C `unsigned int`. */
  type u32 = x: int | 0 <= x < 0x1_0000_0000

  /** Truncation to a C `unsigned int`. */
  function Wrap(x: int): (r: u32) {
    x % 0x1_0000_0000
  }

  /** Conversion of a truncated value to a C `int`. */
  function Signed(x: u32): (r: int) {
    if x < 0x8000_0000 then x else x - 0x1_0000_0000
  }

  /** Truncating an operand first does not change a truncated sum. */
  lemma WrapAdd(a: int, b: int)
    ensures Wrap(Wrap(a) + b) == Wrap(a + b)
  {
  }

  lemma WrapId(x: u32)
    ensures Wrap(x) == x
  {
  }

  lemma WrapShift(a: int, k: int)
    ensures Wrap(a + k * 0x1_0000_0000) == Wrap(a)
  {
  }

  /** memcpy of `text` to buf + at. */
  method CopyInto(buf: array<char>, at: nat, text: string)
    requires at + |text| <= buf.Length
    modifies buf
    ensures buf[..at + |text|] == old(buf[..at]) + text
  {
    for i := 0 to |text|
      invariant forall j :: 0 <= j < at ==> buf[j] == old(buf[j])
      invariant forall j :: 0 <= j < i ==> buf[at + j] == text[j]
      invariant forall j :: at + i <= j < buf.Length ==> buf[j] == old(buf[j])
    {
      buf[at + i] := text[i];
    }
    forall j | 0 <= j < at + |text|
      ensures buf[..at + |text|][j] == (old(buf[..at]) + text)[j]
    {
      if j >= at { assert buf[at + (j - at)] == text[j - at]; }
    }
  }
}
