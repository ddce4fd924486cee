/**
 * The PID table exchange: process 0 sends every other process one signal per
 * table entry, whose integer payload carries the entry's index in the upper
 * 16 bits and the low 16 bits of its PID in the lower 16 (desafio1.c:290);
 * the receiving handler takes the payload apart again (desafio1.c:67-68).
 * A C `int` or `pid_t` is modelled as its 32-bit two's-complement pattern.
 */
module PidCodec {

  type Word = bv32

  /** The PID a table entry holds before it is known: -1. */
  const UNKNOWN_PID: Word := 0xFFFF_FFFF

  const SIGN_BIT: Word := 0x8000_0000

  /** The value of a 32-bit pattern read as a signed C `int`. */
  function Signed(b: Word): (v: int)
    ensures -0x8000_0000 <= v < 0x8000_0000
    ensures v < 0 <==> b & SIGN_BIT != 0
  {
    SignBitIsHalf(b);
    if b & SIGN_BIT == 0 then
      LowerHalf(b);
      b as int
    else
      UpperHalf(b);
      b as int - 0x1_0000_0000
  }

  lemma SignBitIsHalf(b: Word)
    ensures b & SIGN_BIT == 0 <==> b < 0x8000_0000
  {
  }

  lemma LowerHalf(b: Word)
    requires b < 0x8000_0000
    ensures b as int < 0x8000_0000
  {
    assert (b as int) as bv32 == b;
  }

  lemma UpperHalf(b: Word)
    requires b >= 0x8000_0000
    ensures 0x8000_0000 <= b as int < 0x1_0000_0000
  {
  }

  lemma BelowPidRange(b: Word)
    requires b < 0x1_0000
    ensures b as int < 0x1_0000
  {
    assert (b as int) as bv32 == b;
  }

  lemma AbovePidRange(b: Word)
    requires b >= 0x1_0000
    ensures b as int >= 0x1_0000
  {
  }

  /** A pattern below 0x10000 has that value, as unsigned and as signed. */
  lemma SmallValue(b: Word)
    ensures 0 <= Signed(b) < 0x1_0000 <==> b < 0x1_0000
  {
    SignBitIsHalf(b);
    if b < 0x1_0000 {
      BelowPidRange(b);
    } else {
      AbovePidRange(b);
    }
  }

  /** `(j << 16) | (pid & 0xFFFF)` for an index that leaves the sign bit clear. */
  function Pack(index: Word, pid: Word): (w: Word)
    requires index < 0x8000
    ensures w & SIGN_BIT == 0
  {
    (index << 16) | (pid & 0xFFFF)
  }

  /** `sival_int >> 16`: a right shift of a signed int, which copies the sign bit. */
  function IndexField(w: Word): (i: Word)
    ensures i & SIGN_BIT == w & SIGN_BIT
    ensures w & SIGN_BIT == 0 ==> i < 0x8000
    ensures w & SIGN_BIT != 0 ==> i >= 0xFFFF_8000
  {
    if w & SIGN_BIT == 0 then w >> 16 else (w >> 16) | 0xFFFF_0000
  }

  /** The index the handler compares against `num_procesos`. */
  function IndexOf(w: Word): (i: int)
    ensures -0x8000 <= i < 0x8000
    ensures i < 0 <==> w & SIGN_BIT != 0
  {
    Signed(IndexField(w))
  }

  /** `sival_int & 0xFFFF`: the PID as the handler stores it. */
  function PidOf(w: Word): (p: Word)
    ensures p < 0x1_0000
  {
    w & 0xFFFF
  }

  /** The bit-level half of the round trip. */
  lemma FieldsOfPack(index: Word, pid: Word)
    requires index < 0x8000
    ensures Pack(index, pid) & SIGN_BIT == 0
    ensures Pack(index, pid) >> 16 == index
    ensures Pack(index, pid) & 0xFFFF == pid & 0xFFFF
  {
  }

  /** Unpacking a packed entry gives back its index and the PID's low 16 bits. */
  lemma UnpackPack(index: Word, pid: Word)
    requires index < 0x8000
    ensures IndexField(Pack(index, pid)) == index
    ensures IndexOf(Pack(index, pid)) == index as int
    ensures PidOf(Pack(index, pid)) == pid & 0xFFFF
  {
    FieldsOfPack(index, pid);
    SignBitIsHalf(index);
    assert Signed(index) == index as int;
  }

  /** Every payload the handler accepts as an index (non-negative) is the
      packing of what it unpacks to. */
  lemma PackUnpack(w: Word)
    requires IndexOf(w) >= 0
    ensures IndexField(w) < 0x8000
    ensures Pack(IndexField(w), PidOf(w)) == w
  {
    assert w & SIGN_BIT == 0;
    assert IndexField(w) == w >> 16;
  }

  /** The PID survives the round trip exactly when it is a non-negative value
      below 65536; above that it is truncated. */
  lemma PidExact(index: Word, pid: Word)
    requires index < 0x8000
    ensures PidOf(Pack(index, pid)) == pid <==> 0 <= Signed(pid) < 0x1_0000
  {
    FieldsOfPack(index, pid);
    SmallValue(pid);
    assert pid & 0xFFFF == pid <==> pid < 0x1_0000;
  }

  lemma SamePayload(i: Word, p: Word, j: Word, q: Word)
    requires i < 0x8000 && j < 0x8000 && Pack(i, p) == Pack(j, q)
    ensures i == j && p & 0xFFFF == q & 0xFFFF
  {
    FieldsOfPack(i, p);
    FieldsOfPack(j, q);
  }

  lemma SameLowBits(i: Word, p: Word, q: Word)
    requires i < 0x8000 && p & 0xFFFF == q & 0xFFFF
    ensures Pack(i, p) == Pack(i, q)
  {
  }

  /** Two entries pack to the same payload exactly when they have the same
      index and PIDs that agree in their low 16 bits. */
  lemma PackInjective(i: Word, p: Word, j: Word, q: Word)
    requires i < 0x8000 && j < 0x8000
    ensures Pack(i, p) == Pack(j, q) <==> i == j && p & 0xFFFF == q & 0xFFFF
  {
    if Pack(i, p) == Pack(j, q) {
      SamePayload(i, p, j, q);
    }
    if i == j && p & 0xFFFF == q & 0xFFFF {
      SameLowBits(i, p, q);
    }
  }
}
