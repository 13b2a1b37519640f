/**
 The Internet checksum routines of lwIP (inet_chksum.c) on a little-endian host.

 The reference is the sum of section 1 of RFC 1071: 16-bit words added with end-around
 carry. Memory is a byte sequence plus the address of its first byte, so that the routines
 that align themselves take the same branches as the C code. Accumulators have type `U32`,
 so every addition into one is proved not to overflow unless it wraps explicitly.
 */
module Checksum {
  import opened Machine

  // ---------- Reference: RFC 1071, section 1 ----------

  /** One's-complement addition of two 16-bit words: the carry out is added back in. */
  function OnesAdd(a: U16, b: U16): U16 {
    if a + b < 0x1_0000 then a + b else a + b - 0xFFFF
  }

  /** A 16-bit load on a little-endian host. */
  function Word(lo: Byte, hi: Byte): U16 { lo + 0x100 * hi }

  /** The one's-complement sum of the words of `bs`, an odd last byte padded with zero. */
  function RfcSum(bs: seq<Byte>): U16 {
    if |bs| == 0 then 0
    else if |bs| == 1 then bs[0]
    else OnesAdd(Word(bs[0], bs[1]), RfcSum(bs[2..]))
  }

  function Complement(x: U16): U16 { 0xFFFF - x }

  /** The numerical example of section 3 of RFC 1071, with the words as a little-endian host loads them. */
  lemma RfcExample()
    ensures RfcSum([0x00, 0x01, 0xF2, 0x03, 0xF4, 0xF5, 0xF6, 0xF7]) == 0xF2DD
  {
    assert RfcSum([0xF6, 0xF7]) == 0xF7F6;
    assert [0xF4, 0xF5, 0xF6, 0xF7][2..] == [0xF6, 0xF7];
    assert [0xF2, 0x03, 0xF4, 0xF5, 0xF6, 0xF7][2..] == [0xF4, 0xF5, 0xF6, 0xF7];
    assert [0x00, 0x01, 0xF2, 0x03, 0xF4, 0xF5, 0xF6, 0xF7][2..] == [0xF2, 0x03, 0xF4, 0xF5, 0xF6, 0xF7];
  }

  // ---------- Casting out 65535 ----------

  /** The 16-bit one's-complement value of a plain sum: zero only for zero, 0xFFFF for its other multiples. */
  function Ones(s: nat): U16 {
    if s <= 0xFFFF then s else Ones(s - 0xFFFF)
  }

  lemma {:induction false} OnesMultiple(s: nat, k: nat)
    requires s > 0
    ensures Ones(s + 0xFFFF * k) == Ones(s)
  {
    if k > 0 {
      OnesMultiple(s, k - 1);
      assert s + 0xFFFF * k - 0xFFFF == s + 0xFFFF * (k - 1);
    }
  }

  lemma {:induction false} OnesPlus(a: nat, c: nat)
    ensures Ones(Ones(a) + c) == Ones(a + c)
  {
    if a > 0xFFFF {
      OnesPlus(a - 0xFFFF, c);
      assert a - 0xFFFF + c == a + c - 0xFFFF;
    }
  }

  lemma OnesCongruent(a: nat, b: nat, c: nat)
    requires Ones(a) == Ones(b)
    ensures Ones(a + c) == Ones(b + c)
  {
    OnesPlus(a, c);
    OnesPlus(b, c);
  }

  lemma {:induction false} OnesScale(a: nat)
    ensures Ones(0x100 * Ones(a)) == Ones(0x100 * a)
  {
    if a > 0xFFFF {
      OnesScale(a - 0xFFFF);
      OnesMultiple(0x100 * (a - 0xFFFF), 0x100);
      assert 0x100 * (a - 0xFFFF) + 0xFFFF * 0x100 == 0x100 * a;
    }
  }

  lemma {:induction false} OnesZero(a: nat)
    ensures Ones(a) == 0 <==> a == 0
  {
    if a > 0xFFFF { OnesZero(a - 0xFFFF); }
  }

  // ---------- The plain sum of a buffer ----------

  /** What a byte adds to the sum as the upper or the lower half of a word. */
  function Weight(b: Byte, high: bool): nat { if high then 0x100 * b else b }

  /** The plain integer sum; `high` says whether the first byte is the upper half of a word. */
  function WordSum(bs: seq<Byte>, high: bool): nat {
    if bs == [] then 0
    else Weight(bs[0], high) + WordSum(bs[1..], !high)
  }

  lemma {:induction false} RfcSumIsOnes(bs: seq<Byte>)
    ensures RfcSum(bs) == Ones(WordSum(bs, false))
  {
    if |bs| >= 2 {
      RfcSumIsOnes(bs[2..]);
      assert bs[1..][1..] == bs[2..];
      OnesPlus(WordSum(bs[2..], false), Word(bs[0], bs[1]));
    }
  }

  /** Section 2(B) of RFC 1071: moving every byte to the other half multiplies the sum by 256. */
  lemma {:induction false} HalfShift(bs: seq<Byte>, high: bool)
    ensures Ones(WordSum(bs, !high)) == Ones(0x100 * WordSum(bs, high))
  {
    if bs != [] {
      HalfShift(bs[1..], !high);
      var w, w', rest := Weight(bs[0], high), Weight(bs[0], !high), WordSum(bs[1..], !high);
      WeightShift(bs[0], high);
      OnesCongruent(WordSum(bs[1..], high), 0x100 * rest, w');
      OnesCongruent(w', 0x100 * w, 0x100 * rest);
      assert 0x100 * w + 0x100 * rest == 0x100 * WordSum(bs, high);
    }
  }

  lemma WeightShift(b: Byte, high: bool)
    ensures Ones(Weight(b, !high)) == Ones(0x100 * Weight(b, high))
  {
    if high && b > 0 { OnesMultiple(b, b); }
  }

  // ---------- Macros of inet_chksum.h ----------

  /** FOLD_U32T */
  function Fold(x: U32): U32 { x / 0x1_0000 + x % 0x1_0000 }

  /** SWAP_BYTES_IN_WORD, which drops everything above bit 15; also lwip_htons on this host. */
  function SwapBytes(x: U32): U16 { x % 0x100 * 0x100 + x / 0x100 % 0x100 }

  lemma FoldKeepsSum(x: U32)
    ensures Ones(Fold(x)) == Ones(x)
    ensures Fold(x) <= 0x1_FFFE && (x <= 0x1_FFFE ==> Fold(x) <= 0xFFFF)
  {
    if x > 0 { OnesMultiple(Fold(x), x / 0x1_0000); }
    assert x == Fold(x) + 0xFFFF * (x / 0x1_0000);
  }

  /** Folding any 32-bit accumulator twice yields its 16-bit one's-complement value. */
  lemma FoldTwice(x: U32)
    ensures Fold(Fold(x)) == Ones(x)
  {
    FoldKeepsSum(x);
    FoldKeepsSum(Fold(x));
  }

  lemma SwapScales(x: U16)
    ensures SwapBytes(x) == Ones(0x100 * x)
  {
    var hi: int, lo: int := x / 0x100, x % 0x100;
    assert SwapBytes(x) == 0x100 * lo + hi;
    assert 0x100 * x == SwapBytes(x) + 0xFFFF * hi;
    if x > 0 { OnesMultiple(SwapBytes(x), hi); }
  }

  /** The sum with every byte in the other half is the reference sum once swapped. */
  lemma SwappedSum(bs: seq<Byte>)
    ensures SwapBytes(Ones(WordSum(bs, true))) == RfcSum(bs)
  {
    SwapScales(Ones(WordSum(bs, true)));
    OnesScale(WordSum(bs, true));
    HalfShift(bs, true);
    RfcSumIsOnes(bs);
  }

  lemma WordSumPair(bs: seq<Byte>, i: nat, high: bool)
    requires i + 2 <= |bs|
    ensures WordSum(bs[i..], high) ==
            Weight(bs[i], high) + Weight(bs[i + 1], !high) + WordSum(bs[i + 2..], high)
  {
    assert bs[i..][1..] == bs[i + 1..] && bs[i + 1..][1..] == bs[i + 2..];
  }

  lemma WordSumLast(bs: seq<Byte>, i: nat, high: bool)
    requires i + 1 == |bs|
    ensures WordSum(bs[i..], high) == Weight(bs[i], high)
  {
    assert bs[i..][1..] == [];
  }

  // ---------- lwip_standard_chksum, versions 1 to 3 ----------

  /** Version 1: big-endian words, deferred carries, and one byte swap at the end. */
  method StandardChksum1(bs: seq<Byte>) returns (r: U16)
    requires |bs| <= 0x2_0000
    ensures r == RfcSum(bs)
  {
    var acc: U32 := 0;
    var i, len := 0, |bs|;
    while len > 1
      invariant 0 <= len && i + len == |bs| && i % 2 == 0
      invariant acc <= 0xFFFF * (i / 2)
      invariant acc + WordSum(bs[i..], true) == WordSum(bs, true)
    {
      WordSumPair(bs, i, true);
      acc := acc + Word(bs[i + 1], bs[i]);
      i, len := i + 2, len - 2;
    }
    if len > 0 {
      WordSumLast(bs, i, true);
      acc := acc + Word(0, bs[i]);
    }
    FoldTwice(acc);
    FoldKeepsSum(acc);
    SwappedSum(bs);
    acc := Fold(acc);
    if acc / 0x1_0000 != 0 {
      acc := Fold(acc);
    }
    r := SwapBytes(acc);
  }

  /** The 16-bit loop of versions 2 and 3, from offset `start` of the buffer. */
  method SumWords(bs: seq<Byte>, start: nat, sum0: U32) returns (sum: U32, i: nat)
    requires start <= |bs| && sum0 + 0xFFFF * ((|bs| - start) / 2) < 0x1_0000_0000
    ensures start <= i <= |bs| < i + 2
    ensures sum + WordSum(bs[i..], false) == sum0 + WordSum(bs[start..], false)
    ensures sum <= sum0 + 0xFFFF * ((|bs| - start) / 2)
  {
    sum, i := sum0, start;
    while |bs| - i > 1
      invariant start <= i <= |bs| && (i - start) % 2 == 0
      invariant sum <= sum0 + 0xFFFF * ((i - start) / 2)
      invariant sum + WordSum(bs[i..], false) == sum0 + WordSum(bs[start..], false)
    {
      WordSumPair(bs, i, false);
      sum := sum + Word(bs[i], bs[i + 1]);
      i := i + 2;
    }
  }

  /** The common end of versions 2 and 3: the end bytes, two folds, and the swap of an odd start. */
  method FinishAligned(bs: seq<Byte>, i: nat, sum0: U32, first: Byte, odd: bool) returns (r: U16)
    requires i <= |bs| < i + 2 && sum0 <= 0xFFFF_0000
    requires Ones(sum0 + Word(0, first) + WordSum(bs[i..], false)) == Ones(WordSum(bs, odd))
    ensures r == RfcSum(bs)
  {
    var sum: U32, t0: Byte := sum0, 0;
    if |bs| - i > 0 {
      WordSumLast(bs, i, false);
      t0 := bs[i];
    }
    sum := sum + Word(t0, first);
    FoldTwice(sum);
    SwappedSum(bs);
    RfcSumIsOnes(bs);
    sum := Fold(sum);
    sum := Fold(sum);
    if odd {
      sum := SwapBytes(sum);
    }
    r := sum;
  }

  /** Version 2, the one this firmware builds: aligned 16-bit loads from any start address. */
  method StandardChksum2(addr: nat, bs: seq<Byte>) returns (r: U16)
    requires |bs| <= 0x2_0000
    ensures r == RfcSum(bs)
  {
    var sum: U32, i := 0, 0;
    var t1: Byte := 0;
    var odd := addr % 2 == 1;
    if odd && |bs| > 0 {
      t1 := bs[0];
      i := 1;
    }
    sum, i := SumWords(bs, i, 0);
    r := FinishAligned(bs, i, sum, t1, odd);
  }

  /** A 32-bit load on a little-endian host. */
  function Long(bs: seq<Byte>, i: nat): U32
    requires i + 4 <= |bs|
  {
    Word(bs[i], bs[i + 1]) + 0x1_0000 * Word(bs[i + 2], bs[i + 3])
  }

  /** Wrapping 32-bit addition followed by the end-around carry test of version 3. */
  function AddCarry(sum: U32, w: U32): U32 {
    var tmp := (sum + w) % 0x1_0000_0000;
    if tmp < sum then tmp + 1 else tmp
  }

  lemma AddCarryKeepsSum(sum: U32, w: U32)
    ensures Ones(AddCarry(sum, w)) == Ones(sum + w)
  {
    if sum + w >= 0x1_0000_0000 {
      OnesMultiple(AddCarry(sum, w), 0x1_0001);
    }
  }

  lemma LongStep(bs: seq<Byte>, i: nat, sum: U32)
    requires i + 4 <= |bs|
    ensures Ones(AddCarry(sum, Long(bs, i)) + WordSum(bs[i + 4..], false)) == Ones(sum + WordSum(bs[i..], false))
  {
    WordSumPair(bs, i, false);
    WordSumPair(bs, i + 2, false);
    var w, rest := Long(bs, i), WordSum(bs[i + 4..], false);
    var lo: int, hi: int := Word(bs[i], bs[i + 1]), Word(bs[i + 2], bs[i + 3]);
    assert Ones(w) == Ones(lo + hi) by {
      assert w == lo + hi + 0xFFFF * hi;
      if lo + hi > 0 { OnesMultiple(lo + hi, hi); }
    }
    AddCarryKeepsSum(sum, w);
    OnesCongruent(w, lo + hi, sum);
    OnesCongruent(AddCarry(sum, w), sum + (lo + hi), rest);
  }

  /** The unrolled loop of version 3: two 32-bit loads a round, the carry added back each time. */
  method SumLongs(bs: seq<Byte>, start: nat, sum0: U32) returns (sum: U32, i: nat)
    requires start <= |bs|
    ensures start <= i <= |bs| < i + 8
    ensures Ones(sum + WordSum(bs[i..], false)) == Ones(sum0 + WordSum(bs[start..], false))
  {
    sum, i := sum0, start;
    while |bs| - i > 7
      invariant start <= i <= |bs|
      invariant Ones(sum + WordSum(bs[i..], false)) == Ones(sum0 + WordSum(bs[start..], false))
    {
      var tmp: U32 := AddCarry(sum, Long(bs, i));
      LongStep(bs, i, sum);
      sum := AddCarry(tmp, Long(bs, i + 4));
      LongStep(bs, i + 4, tmp);
      i := i + 8;
    }
  }

  lemma FoldStep(sum: U32, rest: nat, total: nat, extra: nat)
    requires Ones(sum + rest) == Ones(total)
    ensures Ones(Fold(sum) + extra + rest) == Ones(total + extra) && Fold(sum) <= 0x1_FFFE
  {
    hide Fold;
    FoldKeepsSum(sum);
    OnesCongruent(Fold(sum), sum, extra + rest);
    OnesCongruent(sum + rest, total, extra);
  }

  /** Version 3: alignment to 32 bits, the unrolled loop, then the words and byte left over. */
  method StandardChksum3(addr: nat, bs: seq<Byte>) returns (r: U16)
    ensures r == RfcSum(bs)
  {
    hide Fold, Ones, RfcSum;
    var sum: U32, i := 0, 0;
    var t1: Byte := 0;
    var odd := addr % 2 == 1;
    if odd && |bs| > 0 {
      t1 := bs[0];
      i := 1;
    }
    ghost var data := WordSum(bs[i..], false);
    if (addr + i) % 4 != 0 && |bs| - i > 1 {
      WordSumPair(bs, i, false);
      sum := sum + Word(bs[i], bs[i + 1]);
      i := i + 2;
    }
    sum, i := SumLongs(bs, i, sum);
    FoldStep(sum, WordSum(bs[i..], false), data, Word(0, t1));
    sum := Fold(sum);
    sum, i := SumWords(bs, i, sum);
    r := FinishAligned(bs, i, sum, t1, odd);
  }

  // ---------- Checksums over pbuf chains ----------

  /** One pbuf of a chain: the payload's address and its bytes. */
  datatype Segment = Segment(addr: nat, bytes: seq<Byte>)

  /** Segment lengths are 16-bit fields. */
  type Chain = c: seq<Segment> | forall i :: 0 <= i < |c| ==> |c[i].bytes| <= 0xFFFF

  /** The bytes of a chain. */
  function Flat(chain: seq<Segment>): seq<Byte> { Concat(seq(|chain|, i requires 0 <= i < |chain| => chain[i].bytes)) }

  lemma FlatAt(chain: seq<Segment>, k: nat)
    requires k < |chain|
    ensures Flat(chain[k..]) == chain[k].bytes + Flat(chain[k + 1..])
  {
    var c, d := chain[k..], chain[k + 1..];
    var parts := seq(|c|, i requires 0 <= i < |c| => c[i].bytes);
    assert parts[1..] == seq(|d|, i requires 0 <= i < |d| => d[i].bytes);
  }

  lemma {:induction false} WordSumConcat(a: seq<Byte>, b: seq<Byte>, high: bool)
    ensures WordSum(a + b, high) == WordSum(a, high) + WordSum(b, if |a| % 2 == 0 then high else !high)
  {
    if a == [] {
      assert a + b == b;
    } else {
      assert (a + b)[1..] == a[1..] + b;
      WordSumConcat(a[1..], b, !high);
    }
  }

  /** A total kept in the orientation of the current segment, as `swapped` records. */
  function Oriented(total: nat, swapped: bool): nat {
    if swapped then 0x100 * total else total
  }

  lemma SwapTurns(total: nat, swapped: bool)
    ensures SwapBytes(Ones(Oriented(total, swapped))) == Ones(Oriented(total, !swapped))
  {
    SwapScales(Ones(Oriented(total, swapped)));
    OnesScale(Oriented(total, swapped));
    if swapped && total > 0 {
      OnesMultiple(total, total);
      assert 0x100 * (0x100 * total) == total + 0xFFFF * total;
    }
  }

  /** One round of the chain loop: add the segment's sum, fold, and turn after an odd segment. */
  function ChainStep(acc: U16, sum: U16, odd: bool): U16
  {
    FoldKeepsSum(acc + sum);
    var folded := Fold(acc + sum);
    if odd then SwapBytes(folded) else folded
  }

  lemma ChainStepKeepsSum(acc: U16, s: seq<Byte>, rest: seq<Byte>, total: nat, swapped: bool)
    requires Ones(acc + WordSum(s + rest, false)) == Ones(Oriented(total, swapped))
    ensures var odd := |s| % 2 != 0;
            Ones(ChainStep(acc, RfcSum(s), odd) + WordSum(rest, false)) ==
            Ones(Oriented(total, if odd then !swapped else swapped))
  {
    hide Fold, SwapBytes, RfcSum, WordSum, Ones;
    var x: nat, odd := acc + RfcSum(s), |s| % 2 != 0;
    RfcSumIsOnes(s);
    WordSumConcat(s, rest, false);
    OnesPlus(WordSum(s, false), acc);
    OnesCongruent(x, acc + WordSum(s, false), WordSum(rest, odd));
    if odd {
      SwapTurns(total, swapped);
      TurnSum(x, rest);
    } else {
      FoldKeepsSum(x);
      OnesCongruent(Fold(x), x, WordSum(rest, false));
    }
  }

  /** Turning a folded accumulator turns the bytes still to come with it. */
  lemma TurnSum(x: U32, rest: seq<Byte>)
    requires x <= 0x1_FFFE
    ensures Fold(x) <= 0xFFFF
    ensures Ones(SwapBytes(Fold(x)) + WordSum(rest, false)) == SwapBytes(Ones(x + WordSum(rest, true)))
  {
    hide Fold, SwapBytes;
    var all: nat := x + WordSum(rest, true);
    FoldKeepsSum(x);
    SwapScales(Fold(x));
    OnesScale(x);
    OnesCongruent(SwapBytes(Fold(x)), 0x100 * x, WordSum(rest, false));
    HalfShift(rest, true);
    OnesCongruent(WordSum(rest, false), 0x100 * WordSum(rest, true), 0x100 * x);
    SwapScales(Ones(all));
    OnesScale(all);
    assert 0x100 * x + 0x100 * WordSum(rest, true) == 0x100 * all;
  }

  /** The loop shared by the chain checksums: per-segment sums with byte-swap parity tracking. */
  method SumChain(chain: Chain, acc0: U16) returns (acc: U16)
    ensures acc == Ones(acc0 + WordSum(Flat(chain), false))
  {
    hide Fold, SwapBytes, ChainStep, Ones, WordSum, RfcSum, Flat, Oriented;
    acc := acc0;
    var swapped := false;
    ghost var total := acc0 + WordSum(Flat(chain), false);
    var k := 0;
    SumStarts(chain, acc0);
    while k < |chain|
      invariant 0 <= k <= |chain|
      invariant Ones(acc + WordSum(Flat(chain[k..]), false)) == Ones(Oriented(total, swapped))
    {
      var q := chain[k];
      FlatAt(chain, k);
      ChainStepKeepsSum(acc, q.bytes, Flat(chain[k + 1..]), total, swapped);
      var sum := StandardChksum2(q.addr, q.bytes);
      acc := ChainStep(acc, sum, |q.bytes| % 2 != 0);
      if |q.bytes| % 2 != 0 {
        swapped := !swapped;
      }
      k := k + 1;
    }
    SumEnds(chain, acc, total, swapped);
    if swapped {
      acc := SwapBytes(acc);
    }
  }

  lemma SumStarts(chain: Chain, acc: U16)
    ensures chain[0..] == chain &&
            Oriented(acc + WordSum(Flat(chain), false), false) == acc + WordSum(Flat(chain), false)
  {
  }

  /** Behind the last segment the accumulator is the sum, but for its orientation. */
  lemma SumEnds(chain: Chain, acc: U16, total: nat, swapped: bool)
    requires Ones(acc + WordSum(Flat(chain[|chain|..]), false)) == Ones(Oriented(total, swapped))
    ensures (if swapped then SwapBytes(acc) else acc) == Ones(total)
  {
    hide SwapBytes;
    assert Flat(chain[|chain|..]) == [];
    SwapTurns(total, swapped);
  }

  /** inet_chksum */
  method InetChksum(addr: nat, bs: seq<Byte>) returns (r: U16)
    requires |bs| <= 0xFFFF
    ensures r == Complement(RfcSum(bs))
  {
    var sum := StandardChksum2(addr, bs);
    r := Complement(sum);
  }

  /** inet_chksum_pbuf: however the bytes are split and placed, the checksum of the flat bytes. */
  method InetChksumPbuf(chain: Chain) returns (r: U16)
    ensures r == Complement(RfcSum(Flat(chain)))
  {
    var acc := SumChain(chain, 0);
    RfcSumIsOnes(Flat(chain));
    r := Complement(acc);
  }

  // ---------- The TCP pseudo-header ----------

  type Address = a: seq<Byte> | |a| == 4 witness [0, 0, 0, 0]

  /** The IPv4 pseudo-header of section 3.1 of RFC 9293, in network byte order. */
  function PseudoHeader(src: Address, dst: Address, proto: Byte, len: U16): seq<Byte> {
    src + dst + [0, proto, len / 0x100, len % 0x100]
  }

  /** ip4_addr_get_u32 split into its two halves, as inet_chksum_pseudo adds them. */
  function AddressSum(a: Address): nat { Word(a[0], a[1]) + Word(a[2], a[3]) }

  lemma AddressWordSum(a: Address)
    ensures WordSum(a, false) == AddressSum(a)
  {
    assert a[0..] == a && a[4..] == [];
    WordSumPair(a, 0, false);
    WordSumPair(a, 2, false);
  }

  lemma PseudoHeaderSum(src: Address, dst: Address, proto: Byte, len: U16, data: seq<Byte>)
    ensures WordSum(PseudoHeader(src, dst, proto, len) + data, false) ==
            AddressSum(src) + AddressSum(dst) + SwapBytes(proto) + SwapBytes(len) + WordSum(data, false)
  {
    var rest := [0, proto, len / 0x100, len % 0x100];
    WordSumConcat(PseudoHeader(src, dst, proto, len), data, false);
    WordSumConcat(src + dst, rest, false);
    WordSumConcat(src, dst, false);
    AddressWordSum(src);
    AddressWordSum(dst);
    AddressWordSum(rest);
  }

  /** inet_chksum_pseudo with inet_cksum_pseudo_base: the checksum of pseudo-header and data. */
  method InetChksumPseudo(chain: Chain, proto: Byte, protoLen: U16, src: Address, dst: Address) returns (r: U16)
    ensures r == Complement(RfcSum(PseudoHeader(src, dst, proto, protoLen) + Flat(chain)))
    ensures var rest := [0, proto, protoLen / 0x100, protoLen % 0x100];
            r == 0xFFFF - RfcSum(src + dst + rest + Flat(chain))
  {
    hide Fold, SwapBytes, Word;
    ghost var addresses := AddressSum(src) + AddressSum(dst);
    var acc: U32 := AddressSum(src) + AddressSum(dst);
    FoldTwice(acc);
    acc := Fold(acc);
    acc := Fold(acc);
    acc := SumChain(chain, acc);
    ghost var data := WordSum(Flat(chain), false);
    OnesPlus(addresses, data);
    acc := acc + SwapBytes(proto);
    acc := acc + SwapBytes(protoLen);
    OnesPlus(addresses + data, SwapBytes(proto) + SwapBytes(protoLen));
    PseudoHeaderSum(src, dst, proto, protoLen, Flat(chain));
    RfcSumIsOnes(PseudoHeader(src, dst, proto, protoLen) + Flat(chain));
    FoldTwice(acc);
    acc := Fold(acc);
    acc := Fold(acc);
    r := Complement(acc);
  }

  // ---------- Store and verify ----------

  /** `bs` with the 16-bit word `w` stored at byte offset `k`, as a little-endian host stores it. */
  function StoreWord(bs: seq<Byte>, k: nat, w: U16): seq<Byte>
    requires k + 2 <= |bs|
  {
    bs[..k] + [w % 0x100, w / 0x100] + bs[k + 2..]
  }

  lemma StoreWordSum(bs: seq<Byte>, k: nat, w: U16)
    requires k + 2 <= |bs| && k % 2 == 0
    ensures WordSum(StoreWord(bs, k, w), false) == WordSum(bs[..k], false) + w + WordSum(bs[k + 2..], false)
  {
    var field: seq<Byte> := [w % 0x100, w / 0x100];
    WordSumConcat(bs[..k] + field, bs[k + 2..], false);
    WordSumConcat(bs[..k], field, false);
    assert field[0..] == field && field[2..] == [];
    WordSumPair(field, 0, false);
  }

  /**
   A receiver accepts a segment (the recomputed checksum is zero) exactly when the field holds
   the checksum computed over the zeroed field, or 0xFFFF where that checksum is zero.
   */
  lemma ChecksumVerifies(bs: seq<Byte>, k: nat, w: U16)
    requires k + 2 <= |bs| && k % 2 == 0
    ensures var c := Complement(RfcSum(StoreWord(bs, k, 0)));
            Complement(RfcSum(StoreWord(bs, k, w))) == 0 <==> w == c || (c == 0 && w == 0xFFFF)
  {
    StoreWordSum(bs, k, 0);
    StoreWordSum(bs, k, w);
    RfcSumIsOnes(StoreWord(bs, k, 0));
    RfcSumIsOnes(StoreWord(bs, k, w));
    var s := WordSum(StoreWord(bs, k, 0), false);
    OnesPlus(s, w);
  }

  /**
   The round trip of a TCP segment: the checksum computed over a zeroed, even-offset field,
   stored there, makes the recomputed checksum zero for every split of the stored segment.
   */
  lemma ChecksumRoundTrip(sent: Chain, received: Chain, k: nat, header: seq<Byte>, c: U16)
    requires k + 2 <= |Flat(sent)| && (|header| + k) % 2 == 0 && Flat(sent)[k] == Flat(sent)[k + 1] == 0
    requires c == Complement(RfcSum(header + Flat(sent)))
    requires Flat(received) == StoreWord(Flat(sent), k, c)
    ensures Complement(RfcSum(header + Flat(received))) == 0
  {
    hide StoreWord, Flat, RfcSum;
    StoreNothing(Flat(sent), k);
    StoreAfterHeader(header, Flat(sent), k, 0);
    StoreAfterHeader(header, Flat(sent), k, c);
    ChecksumVerifies(header + Flat(sent), |header| + k, c);
  }

  /**
   Sender and receiver: inet_chksum_pseudo over a segment with a zeroed checksum field, stored in that
   field, makes inet_chksum_pseudo zero over the stored segment, split into pbufs in any way.
   */
  method SendAndVerify(sent: Chain, k: nat, proto: Byte, protoLen: U16, src: Address, dst: Address,
                       split: seq<Byte> -> Chain)
    returns (c: U16, r: U16)
    requires k + 2 <= |Flat(sent)| && k % 2 == 0 && Flat(sent)[k] == Flat(sent)[k + 1] == 0
    requires forall bs :: Flat(split(bs)) == bs
    ensures c == Complement(RfcSum(PseudoHeader(src, dst, proto, protoLen) + Flat(sent))) && r == 0
  {
    hide Flat, RfcSum, StoreWord;
    c := InetChksumPseudo(sent, proto, protoLen, src, dst);
    var received := split(StoreWord(Flat(sent), k, c));
    ghost var header := PseudoHeader(src, dst, proto, protoLen);
    assert |header| == 12;
    ChecksumRoundTrip(sent, received, k, header, c);
    r := InetChksumPseudo(received, proto, protoLen, src, dst);
  }

  lemma StoreNothing(bs: seq<Byte>, k: nat)
    requires k + 2 <= |bs| && bs[k] == bs[k + 1] == 0
    ensures StoreWord(bs, k, 0) == bs
  {
  }

  lemma StoreAfterHeader(header: seq<Byte>, bs: seq<Byte>, k: nat, w: U16)
    requires k + 2 <= |bs|
    ensures StoreWord(header + bs, |header| + k, w) == header + StoreWord(bs, k, w)
  {
    assert (header + bs)[..|header| + k] == header + bs[..k];
    assert (header + bs)[|header| + k + 2..] == bs[k + 2..];
  }
}
