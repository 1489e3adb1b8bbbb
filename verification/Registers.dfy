/** dev/nvme/nvme.c, lines 12 to 44: reading and writing bit-fields of memory-mapped registers. */
module Registers {

  // A machine word, bit 0 first.
  type Word = seq<bool>
  type Word32 = w: Word | |w| == 32 witness seq(32, _ => false)
  type Word64 = w: Word | |w| == 64 witness seq(64, _ => false)

  // All bits set.
  function Ones(n: nat): (w: Word) ensures |w| == n { seq(n, _ => true) }

  function And(x: Word, y: Word): (w: Word)
    requires |x| == |y|
    ensures |w| == |x|
  {
    seq(|x|, i requires 0 <= i < |x| && |x| == |y| => x[i] && y[i])
  }

  function Or(x: Word, y: Word): (w: Word)
    requires |x| == |y|
    ensures |w| == |x|
  {
    seq(|x|, i requires 0 <= i < |x| && |x| == |y| => x[i] || y[i])
  }

  function Not(x: Word): (w: Word)
    ensures |w| == |x|
  {
    seq(|x|, i requires 0 <= i < |x| => !x[i])
  }

  function Shl(x: Word, k: nat): (w: Word)
    ensures |w| == |x|
  {
    seq(|x|, i requires 0 <= i < |x| => if i < k then false else x[i - k])
  }

  function Shr(x: Word, k: nat): (w: Word)
    ensures |w| == |x|
  {
    seq(|x|, i requires 0 <= i < |x| => if i + k < |x| then x[i + k] else false)
  }

  // The low `size` bits set.
  function Mask(width: nat, size: nat): (w: Word)
    requires 1 <= size <= width
    ensures |w| == width
  {
    Shr(Ones(width), width - size)
  }

  // The word with the field of `size` bits at `off` cleared and the shifted value or-ed in.
  function Put(w: Word, off: nat, value: Word, size: nat): (r: Word)
    requires |w| == |value| && 1 <= size <= |w|
    ensures |r| == |w|
  {
    Or(And(w, Not(Shl(Mask(|w|, size), off))), Shl(value, off))
  }

  // The field of `size` bits at `off`, moved down to bit 0.
  function Get(w: Word, off: nat, size: nat): (r: Word)
    requires 1 <= size <= |w|
    ensures |r| == |w|
  {
    And(Shr(w, off), Mask(|w|, size))
  }

  // No bit from `size` on is set.
  predicate Fits(v: Word, size: nat) { forall i :: size <= i < |v| ==> !v[i] }

  // The number a word stands for.
  function Value(w: Word): nat { if w == [] then 0 else (if w[0] then 1 else 0) + 2 * Value(w[1..]) }

  function Pow2(n: nat): nat { if n == 0 then 1 else 2 * Pow2(n - 1) }

  /** Fits says what its comment says. */
  lemma {:induction false} FitsIsBelow(v: Word, size: nat)
    ensures Fits(v, size) <==> Value(v) < Pow2(size)
  {
    if v == [] {
      PowPositive(size);
    } else if size == 0 {
      FitsIsBelow(v[1..], 0);
      assert forall i :: 0 <= i < |v| - 1 ==> v[1..][i] == v[i + 1];
      assert Fits(v, 0) <==> !v[0] && Fits(v[1..], 0);
    } else {
      FitsIsBelow(v[1..], size - 1);
      assert forall i :: 0 <= i < |v| - 1 ==> v[1..][i] == v[i + 1];
      assert Fits(v, size) <==> Fits(v[1..], size - 1);
    }
  }

  lemma {:induction false} PowPositive(n: nat)
    ensures Pow2(n) > 0
  {
    if n > 0 { PowPositive(n - 1); }
  }

  // Bit i of a field that was read: bits of the register only, also where the field ends behind it.
  lemma GetBit(w: Word, off: nat, size: nat, i: nat)
    requires 1 <= size <= |w| && i < |w|
    ensures Get(w, off, size)[i] <==> i < size && off + i < |w| && w[off + i]
  {
  }

  // Bit i of a written word: inside the field the value, outside the old word.
  lemma PutBit(w: Word, off: nat, value: Word, size: nat, i: nat)
    requires |w| == |value| && 1 <= size && off + size <= |w| && i < |w|
    ensures Put(w, off, value, size)[i]
            == if off <= i < off + size then value[i - off]
               else w[i] || (off + size <= i && value[i - off])
  {
  }

  /** Writing a field that lies inside the word reads back as the value exactly when the value
      fits; then every bit outside the field, and so every disjoint field, is unchanged. */
  lemma FieldRoundTrip(w: Word, off: nat, value: Word, size: nat)
    requires |w| == |value| && 1 <= size && off + size <= |w|
    ensures Get(Put(w, off, value, size), off, size) == value <==> Fits(value, size)
    ensures Fits(value, size) ==>
              forall i :: 0 <= i < |w| && !(off <= i < off + size) ==> Put(w, off, value, size)[i] == w[i]
  {
  }

  lemma DisjointField(w: Word, off: nat, value: Word, size: nat, off': nat, size': nat)
    requires |w| == |value| && 1 <= size && off + size <= |w| && 1 <= size' && off' + size' <= |w|
    requires Fits(value, size) && (off + size <= off' || off' + size' <= off)
    ensures Get(Put(w, off, value, size), off', size') == Get(w, off', size')
  {
  }

  // Two registers as one word, the second above the first.
  function Join(low: Word32, high: Word32): Word64 {
    Or(Shl(high + seq(32, _ => false), 32), low + seq(32, _ => false))
  }

  // The two halves of a word.
  function Low(w: Word64): Word32 { And(w, Ones(32) + seq(32, _ => false))[..32] }

  function HighHalf(w: Word64): Word32 { Shr(w, 32)[..32] }

  lemma JoinBit(low: Word32, high: Word32, i: nat)
    requires i < 64
    ensures Join(low, high)[i] == if i < 32 then low[i] else high[i - 32]
  {
  }

  lemma SplitJoin(w: Word64)
    ensures Join(Low(w), HighHalf(w)) == w
  {
  }

  /** The registers of a device, one 32-bit word per index. */
  class Mmio {
    const regs: array<Word32>

    constructor (regs: array<Word32>)
      ensures this.regs == regs
    {
      this.regs := regs;
    }

    method Write32(r: nat, off: nat, value: Word32, size: nat)
      requires r < regs.Length && 1 <= size <= 32
      modifies regs
      ensures regs[..] == old(regs[..])[r := Put(old(regs[r]), off, value, size)]
    {
      var tmp := regs[r];
      tmp := Or(And(tmp, Not(Shl(Shr(Ones(32), 32 - size), off))), Shl(value, off));
      regs[r] := tmp;
    }

    method Read32(r: nat, off: nat, size: nat) returns (value: Word32)
      requires r < regs.Length && 1 <= size <= 32
      ensures forall i :: 0 <= i < 32 ==> (value[i] <==> i < size && off + i < 32 && regs[r][off + i])
    {
      var tmp := regs[r];
      value := And(Shr(tmp, off), Shr(Ones(32), 32 - size));
      forall i | 0 <= i < 32 ensures value[i] <==> i < size && off + i < 32 && tmp[off + i] {
        GetBit(tmp, off, size, i);
      }
    }

    // Bit j of the register pair at r: the second register holds the high half.
    predicate PairBit(r: nat, j: nat)
      requires r + 1 < regs.Length && j < 64
      reads regs
    {
      if j < 32 then regs[r][j] else regs[r + 1][j - 32]
    }

    method Write64(r: nat, off: nat, value: Word64, size: nat)
      requires r + 1 < regs.Length && 1 <= size <= 64
      modifies regs
      ensures Join(regs[r], regs[r + 1]) == Put(Join(old(regs[r]), old(regs[r + 1])), off, value, size)
      ensures var w := Put(Join(old(regs[r]), old(regs[r + 1])), off, value, size);
              regs[..] == old(regs[..])[r := Low(w)][r + 1 := HighHalf(w)]
    {
      var low, high := regs[r], regs[r + 1];
      var tmp := Join(low, high);
      tmp := Or(And(tmp, Not(Shl(Shr(Ones(64), 64 - size), off))), Shl(value, off));
      SplitJoin(tmp);
      regs[r] := Low(tmp);
      regs[r + 1] := HighHalf(tmp);
    }

    method Read64(r: nat, off: nat, size: nat) returns (value: Word64)
      requires r + 1 < regs.Length && 1 <= size <= 64
      ensures forall i :: 0 <= i < 64 ==> (value[i] <==> i < size && off + i < 64 && PairBit(r, off + i))
    {
      var low, high := regs[r], regs[r + 1];
      var tmp := Join(low, high);
      value := And(Shr(tmp, off), Shr(Ones(64), 64 - size));
      forall i | 0 <= i < 64 ensures value[i] <==> i < size && off + i < 64 && PairBit(r, off + i) {
        GetBit(tmp, off, size, i);
        if off + i < 64 { JoinBit(low, high, off + i); }
      }
    }
  }
}
