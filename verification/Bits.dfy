/** The layer below port masks: words of 64 bits as sets of positions, the iteration over
    set bits, and the number of set bits. */
module Bits {
  import opened Digraph

  type Word = bv64

  // ----- Words as sets -----

  predicate Odd(m: Word) {
    m & 1 == 1
  }

  function Half(m: Word): (h: Word)
    ensures m != 0 ==> h < m
    ensures m == 0 ==> h == 0
  {
    m >> 1
  }

  /** Whether the bit at a position is set. */
  predicate BitAt(m: Word, j: nat) {
    if j == 0 then Odd(m) else BitAt(Half(m), j - 1)
  }

  /** The positions of set bits in ascending order, counted from `k` on. */
  function List(m: Word, k: nat): seq<nat>
    decreases m
  {
    if m == 0 then [] else (if Odd(m) then [k] else []) + List(Half(m), k + 1)
  }

  /** The set of positions that a word stands for. */
  ghost function Positions(m: Word): set<nat> {
    set x | x in List(m, 0)
  }

  lemma {:induction false} ZeroHasNoBits(j: nat)
    ensures !BitAt(0, j)
  {
    if j > 0 {
      ZeroHasNoBits(j - 1);
    }
  }

  /** Position `x` is set if the positions of `m` are counted from `k` on. */
  predicate BitFrom(m: Word, k: nat, x: nat) {
    k <= x && BitAt(m, x - k)
  }

  lemma {:induction false} ListIs(m: Word, k: nat)
    ensures forall x: nat :: x in List(m, k) <==> BitFrom(m, k, x)
    ensures Ascending(List(m, k))
    decreases m
  {
    hide Odd;
    if m == 0 {
      forall x: nat ensures !BitFrom(m, k, x) {
        if k <= x {
          ZeroHasNoBits(x - k);
        }
      }
    } else {
      hide Half;
      var rest := List(Half(m), k + 1);
      ListIs(Half(m), k + 1);
      forall i: nat | i < |rest| ensures k + 1 <= rest[i] {
        assert rest[i] in rest;
      }
    }
  }

  lemma PositionsAre(m: Word)
    ensures forall x: nat :: x in Positions(m) <==> BitAt(m, x)
  {
    ListIs(m, 0);
  }

  function Or(a: Word, b: Word): Word {
    a | b
  }

  function And(a: Word, b: Word): Word {
    a & b
  }

  function Xor(a: Word, b: Word): Word {
    a ^ b
  }

  lemma OrHalves(a: Word, b: Word)
    ensures Half(Or(a, b)) == Or(Half(a), Half(b)) && Odd(Or(a, b)) == (Odd(a) || Odd(b))
  {
  }

  lemma AndHalves(a: Word, b: Word)
    ensures Half(And(a, b)) == And(Half(a), Half(b)) && Odd(And(a, b)) == (Odd(a) && Odd(b))
  {
  }

  lemma XorHalves(a: Word, b: Word)
    ensures Half(Xor(a, b)) == Xor(Half(a), Half(b)) && Odd(Xor(a, b)) == (Odd(a) != Odd(b))
  {
  }

  lemma {:induction false} BitwiseAt(a: Word, b: Word, j: nat)
    ensures BitAt(Or(a, b), j) <==> BitAt(a, j) || BitAt(b, j)
    ensures BitAt(And(a, b), j) <==> BitAt(a, j) && BitAt(b, j)
    ensures BitAt(Xor(a, b), j) <==> BitAt(a, j) != BitAt(b, j)
    decreases j
  {
    hide Half; hide Odd; hide Or; hide And; hide Xor;
    OrHalves(a, b);
    AndHalves(a, b);
    XorHalves(a, b);
    if j > 0 {
      BitwiseAt(Half(a), Half(b), j - 1);
    }
  }

  lemma HalvesDecide(a: Word, b: Word)
    requires Half(a) == Half(b) && Odd(a) == Odd(b)
    ensures a == b
  {
  }

  /** The number of bits up to the last one that is set. */
  function Width(m: Word): nat
    decreases m
  {
    if m == 0 then 0 else 1 + Width(Half(m))
  }

  /** Both words have the same bits. */
  ghost predicate Alike(a: Word, b: Word) {
    forall j: nat :: BitAt(a, j) == BitAt(b, j)
  }

  lemma AlikeHalves(a: Word, b: Word)
    requires Alike(a, b)
    ensures Alike(Half(a), Half(b)) && Odd(a) == Odd(b)
  {
    hide Half; hide Odd;
    assert BitAt(a, 0) == BitAt(b, 0);
    forall j: nat ensures BitAt(Half(a), j) == BitAt(Half(b), j) {
      assert BitAt(a, j + 1) == BitAt(b, j + 1);
    }
  }

  lemma {:induction false} SameBits(a: Word, b: Word)
    requires Alike(a, b)
    ensures a == b
    decreases Width(a) + Width(b)
  {
    hide Half; hide Odd; hide Alike;
    if a != 0 || b != 0 {
      AlikeHalves(a, b);
      SameBits(Half(a), Half(b));
      HalvesDecide(a, b);
    }
  }

  /** Words with the same positions are the same. */
  lemma PositionsDecide(a: Word, b: Word)
    requires Positions(a) == Positions(b)
    ensures a == b
  {
    PositionsAre(a);
    PositionsAre(b);
    hide BitAt; hide Positions;
    forall j: nat ensures BitAt(a, j) == BitAt(b, j) {
      assert j in Positions(a) <==> j in Positions(b);
    }
    SameBits(a, b);
  }

  lemma BitwisePositions(a: Word, b: Word)
    ensures Positions(Or(a, b)) == Positions(a) + Positions(b)
    ensures Positions(And(a, b)) == Positions(a) * Positions(b)
    ensures Positions(Xor(a, b)) == (Positions(a) - Positions(b)) + (Positions(b) - Positions(a))
  {
    hide Positions; hide BitAt; hide Or; hide And; hide Xor;
    PositionsAre(a);
    PositionsAre(b);
    PositionsAre(Or(a, b));
    PositionsAre(And(a, b));
    PositionsAre(Xor(a, b));
    forall x: nat
      ensures x in Positions(Or(a, b)) <==> x in Positions(a) + Positions(b)
      ensures x in Positions(And(a, b)) <==> x in Positions(a) * Positions(b)
      ensures x in Positions(Xor(a, b)) <==> x in (Positions(a) - Positions(b)) + (Positions(b) - Positions(a))
    {
      BitwiseAt(a, b, x);
    }
  }

  lemma SubsetTest(a: Word, b: Word)
    ensures And(a, b) == a <==> Positions(a) <= Positions(b)
  {
    hide Positions; hide And;
    BitwisePositions(a, b);
    if Positions(a) <= Positions(b) {
      assert Positions(And(a, b)) == Positions(a);
      PositionsDecide(And(a, b), a);
    }
  }

  /** The operations on port masks are those on sets of ports: applying a mask is a
      union, a difference is a symmetric difference, and the subset test is one. */
  lemma MasksAreSets(a: Word, b: Word)
    ensures Positions(a | b) == Positions(a) + Positions(b)
    ensures Positions(a & b) == Positions(a) * Positions(b)
    ensures Positions(a ^ b) == (Positions(a) - Positions(b)) + (Positions(b) - Positions(a))
    ensures a & b == a <==> Positions(a) <= Positions(b)
  {
    hide Positions;
    BitwisePositions(a, b);
    SubsetTest(a, b);
  }

  // ----- The first set bit -----

  /** am_extract_lsb_u64. */
  function LowestBit(v: Word): Word {
    if v == 0 then 0 else v & (!v + 1)
  }

  function ZerosOf(lsb: Word): int {
    64
    - (if lsb != 0 then 1 else 0)
    - (if lsb & 0x00000000FFFFFFFF != 0 then 32 else 0)
    - (if lsb & 0x0000FFFF0000FFFF != 0 then 16 else 0)
    - (if lsb & 0x00FF00FF00FF00FF != 0 then 8 else 0)
    - (if lsb & 0x0F0F0F0F0F0F0F0F != 0 then 4 else 0)
    - (if lsb & 0x3333333333333333 != 0 then 2 else 0)
    - (if lsb & 0x5555555555555555 != 0 then 1 else 0)
  }

  /** am_zero_bits_right_u64, and am_first_set_bit_idx_u64. */
  function ZeroBitsRight(mask: Word): int {
    ZerosOf(LowestBit(mask))
  }

  lemma LowestOfOdd(m: Word)
    requires Odd(m)
    ensures LowestBit(m) == 1 && ZerosOf(1) == 0
  {
  }

  lemma LowestOfEven(m: Word)
    requires !Odd(m) && m != 0
    ensures Half(m) != 0 && LowestBit(m) == LowestBit(Half(m)) << 1 && LowestBit(Half(m)) & 0x8000000000000000 == 0
  {
  }

  /** A word with one bit. */
  predicate OneBit(b: Word) {
    b != 0 && b & (b - 1) == 0
  }

  lemma ZerosOfShifted(b: Word)
    requires OneBit(b) && b & 0x8000000000000000 == 0
    ensures ZerosOf(b << 1) == ZerosOf(b) + 1
  {
  }

  lemma LowestIsOneBit(m: Word)
    requires m != 0
    ensures OneBit(LowestBit(m))
  {
  }

  lemma ZerosRange(m: Word)
    ensures ZeroBitsRight(0) == 64
    ensures m != 0 ==> LowestBit(m) != 0 && ZeroBitsRight(m) < 64
  {
  }

  lemma ZerosOfEven(m: Word)
    requires !Odd(m) && m != 0
    ensures Half(m) != 0 && ZeroBitsRight(m) == ZeroBitsRight(Half(m)) + 1
    ensures LowestBit(m) == LowestBit(Half(m)) << 1
  {
    hide ZerosOf; hide LowestBit; hide OneBit; hide Half;
    LowestOfEven(m);
    LowestIsOneBit(Half(m));
    ZerosOfShifted(LowestBit(Half(m)));
  }

  /** A one shifted to a position, one step at a time. */
  function OneAt(k: nat): Word {
    if k == 0 then 1 else OneAt(k - 1) << 1
  }

  /** The index of the first set bit is the first position of the word, and shifting a
      one to it gives that bit. */
  lemma {:induction false} FirstSetBit(m: Word, k: nat)
    requires m != 0
    ensures 0 <= ZeroBitsRight(m) < 64 && List(m, k) != [] && List(m, k)[0] == k + ZeroBitsRight(m)
    ensures OneAt(ZeroBitsRight(m)) == LowestBit(m)
    decreases m
  {
    hide Odd; hide ZeroBitsRight; hide LowestBit;
    ZerosRange(m);
    if Odd(m) {
      OddFirst(m);
    } else {
      ZerosOfEven(m);
      hide Half;
      FirstSetBit(Half(m), k + 1);
    }
  }

  lemma OddFirst(m: Word)
    requires Odd(m)
    ensures ZeroBitsRight(m) == 0 && LowestBit(m) == 1
  {
    LowestOfOdd(m);
  }

  /** The word without its lowest bit. */
  function Cleared(m: Word): Word {
    m & !LowestBit(m)
  }

  lemma ClearedOdd(m: Word)
    requires Odd(m)
    ensures !Odd(Cleared(m)) && Half(Cleared(m)) == Half(m) && (Cleared(m) == 0 <==> Half(m) == 0)
  {
  }

  lemma ClearedEven(m: Word)
    requires !Odd(m) && m != 0
    ensures !Odd(Cleared(m)) && Half(Cleared(m)) == Cleared(Half(m)) && Half(m) != 0
    ensures Cleared(m) == 0 <==> Cleared(Half(m)) == 0
  {
  }

  /** Clearing the lowest bit removes the first position. */
  lemma {:induction false} ClearedList(m: Word, k: nat)
    requires m != 0
    ensures List(m, k) != [] && List(Cleared(m), k) == List(m, k)[1..]
    decreases m
  {
    hide Odd; hide Cleared;
    if Odd(m) {
      ClearedOdd(m);
    } else {
      ClearedEven(m);
      hide Half;
      ClearedList(Half(m), k + 1);
    }
  }

  /** The word without the bit at a position. */
  function WithoutBit(m: Word, idx: nat): Word {
    m & !OneAt(idx)
  }

  lemma IterationStep(m: Word)
    requires ZeroBitsRight(m) != 64
    ensures 0 <= ZeroBitsRight(m) < 64 && List(m, 0) == [ZeroBitsRight(m)] + List(WithoutBit(m, ZeroBitsRight(m)), 0)
  {
    hide ZeroBitsRight; hide LowestBit; hide List; hide OneAt;
    ZerosRange(m);
    FirstSetBit(m, 0);
    ClearedList(m, 0);
    assert WithoutBit(m, ZeroBitsRight(m)) == Cleared(m);
    hide WithoutBit; hide Cleared;
    assert List(m, 0) == [List(m, 0)[0]] + List(m, 0)[1..];
  }

  lemma ListOfNothing(m: Word)
    requires ZeroBitsRight(m) == 64
    ensures List(m, 0) == []
  {
    ZerosRange(m);
  }

  /** am_for_each_bit_idx_u64: the indexes it iterates over are the positions of the mask,
      in ascending order. */
  method ForEachBit(mask: Word) returns (visited: seq<nat>)
    ensures visited == List(mask, 0)
  {
    hide ZeroBitsRight; hide List; hide WithoutBit;
    visited := [];
    var tmpmask := mask;
    var idx := ZeroBitsRight(mask);
    assert [] + List(mask, 0) == List(mask, 0);
    while idx != 64
      invariant idx == ZeroBitsRight(tmpmask) && visited + List(tmpmask, 0) == List(mask, 0)
      decreases |List(tmpmask, 0)|
    {
      IterationStep(tmpmask);
      ghost var left := List(WithoutBit(tmpmask, idx), 0);
      assert visited + ([idx] + left) == (visited + [idx]) + left;
      visited := visited + [idx];
      tmpmask := WithoutBit(tmpmask, idx);
      idx := ZeroBitsRight(tmpmask);
    }
    ListOfNothing(tmpmask);
  }

  // ----- The number of set bits -----

  /** The table for four bits. */
  function Nibble(x: Word): nat {
    if x == 0 then 0
    else if x == 1 || x == 2 || x == 4 || x == 8 then 1
    else if x == 7 || x == 11 || x == 13 || x == 14 then 3
    else if x == 15 then 4
    else 2
  }

  /** am_num_bits_set_u64. */
  function NumBitsSet(mask: Word): nat {
    Nibble((mask >> 0) & 0xF) + Nibble((mask >> 4) & 0xF) + Nibble((mask >> 8) & 0xF) + Nibble((mask >> 12) & 0xF) +
    Nibble((mask >> 16) & 0xF) + Nibble((mask >> 20) & 0xF) + Nibble((mask >> 24) & 0xF) + Nibble((mask >> 28) & 0xF) +
    Nibble((mask >> 32) & 0xF) + Nibble((mask >> 36) & 0xF) + Nibble((mask >> 40) & 0xF) + Nibble((mask >> 44) & 0xF) +
    Nibble((mask >> 48) & 0xF) + Nibble((mask >> 52) & 0xF) + Nibble((mask >> 56) & 0xF) + Nibble((mask >> 60) & 0xF)
  }

  /** The number of bits, one at a time. */
  function Bits(m: Word): nat
    decreases m
  {
    if m == 0 then 0 else (if Odd(m) then 1 else 0) + Bits(Half(m))
  }

  lemma {:induction false} BitsAreListed(m: Word, k: nat)
    ensures Bits(m) == |List(m, k)|
    decreases m
  {
    if m != 0 {
      hide Half; hide Odd;
      BitsAreListed(Half(m), k + 1);
    }
  }

  lemma OneMoreBit(m: Word)
    ensures Bits(m) == (if Odd(m) then 1 else 0) + Bits(Half(m))
  {
  }

  function LowNibble(m: Word): Word {
    m & 0xF
  }

  function Quarter(m: Word): Word {
    m >> 4
  }

  lemma NibbleCounts(m: Word)
    ensures Nibble(LowNibble(m)) ==
      (if Odd(m) then 1 else 0) + (if Odd(Half(m)) then 1 else 0) + (if Odd(Half(Half(m))) then 1 else 0) +
      (if Odd(Half(Half(Half(m)))) then 1 else 0)
    ensures Half(Half(Half(Half(m)))) == Quarter(m)
  {
  }

  lemma FourMoreBits(m: Word)
    ensures Bits(m) == Nibble(LowNibble(m)) + Bits(Quarter(m))
  {
    NibbleCounts(m);
    hide Half; hide Odd; hide Nibble; hide Bits;
    OneMoreBit(m);
    OneMoreBit(Half(m));
    OneMoreBit(Half(Half(m)));
    OneMoreBit(Half(Half(Half(m))));
  }

  function FourNibbles(m: Word): nat {
    Nibble(m & 0xF) + Nibble((m >> 4) & 0xF) + Nibble((m >> 8) & 0xF) + Nibble((m >> 12) & 0xF)
  }

  function Sixteen(m: Word): Word {
    m >> 16
  }

  lemma SixteenMoreBits(m: Word)
    ensures Bits(m) == FourNibbles(m) + Bits(Sixteen(m))
  {
    QuartersOf(m);
    hide Nibble; hide Bits;
    FourMoreBits(m);
    FourMoreBits(m >> 4);
    FourMoreBits(m >> 8);
    FourMoreBits(m >> 12);
  }

  lemma QuartersOf(m: Word)
    ensures Quarter(m) == m >> 4 && Quarter(m >> 4) == m >> 8 && Quarter(m >> 8) == m >> 12
    ensures Quarter(m >> 12) == m >> 16
    ensures LowNibble(m) == m & 0xF && LowNibble(m >> 4) == (m >> 4) & 0xF
    ensures LowNibble(m >> 8) == (m >> 8) & 0xF && LowNibble(m >> 12) == (m >> 12) & 0xF
  {
  }

  lemma NibblesOf(m: Word)
    ensures var a := Sixteen(m); var b := Sixteen(a); var c := Sixteen(b);
      NumBitsSet(m) == FourNibbles(m) + FourNibbles(a) + FourNibbles(b) + FourNibbles(c) && Sixteen(c) == 0
  {
    ShiftsAdd(m);
    hide Nibble;
  }

  lemma ShiftsAdd(m: Word)
    ensures m >> 0 == m
    ensures (m >> 16) >> 4 == m >> 20 && (m >> 16) >> 8 == m >> 24 && (m >> 16) >> 12 == m >> 28
    ensures (m >> 16) >> 16 == m >> 32
    ensures (m >> 32) >> 4 == m >> 36 && (m >> 32) >> 8 == m >> 40 && (m >> 32) >> 12 == m >> 44
    ensures (m >> 32) >> 16 == m >> 48
    ensures (m >> 48) >> 4 == m >> 52 && (m >> 48) >> 8 == m >> 56 && (m >> 48) >> 12 == m >> 60 && (m >> 48) >> 16 == 0
  {
  }

  lemma NumBitsCounts(m: Word)
    ensures NumBitsSet(m) == Bits(m)
  {
    NibblesOf(m);
    OneMoreBit(0);
    hide FourNibbles; hide NumBitsSet; hide Sixteen;
    SixteenMoreBits(m);
    SixteenMoreBits(Sixteen(m));
    SixteenMoreBits(Sixteen(Sixteen(m)));
    SixteenMoreBits(Sixteen(Sixteen(Sixteen(m))));
  }

  /** The number of set bits is the size of the set that a word stands for: the counter
      of a node is set to the number of ports in its mask. */
  lemma NumBitsIsCardinality(m: Word)
    ensures NumBitsSet(m) == |Positions(m)| == |List(m, 0)|
  {
    hide NumBitsSet; hide Bits; hide List;
    NumBitsCounts(m);
    BitsAreListed(m, 0);
    ListIs(m, 0);
    DistinctCardinality(List(m, 0));
    assert Positions(m) == Elems(List(m, 0));
  }
}
