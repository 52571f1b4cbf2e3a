/** Single-bit access on bytes, as the packer uses them: a byte is a `bv8`,
    bit 0 the least significant and bit 7 the most significant. */
module Bits {

  /** A pixel or a bit: 0 or 1. */
  type Bit = b: int | 0 <= b <= 1

  /** `1 << k`, the byte with only bit `k` set. */
  function Mask(k: nat): (m: bv8)
    requires k < 8
  {
    match k
    case 0 => 0x01
    case 1 => 0x02
    case 2 => 0x04
    case 3 => 0x08
    case 4 => 0x10
    case 5 => 0x20
    case 6 => 0x40
    case _ => 0x80
  }

  /** Bit `k` of `x`. */
  function BitAt(x: bv8, k: nat): (r: Bit)
    requires k < 8
  {
    if x & Mask(k) == 0 then 0 else 1
  }

  /** The source's `p << k` for a pixel `p`: bit `k` holds `p`, every other bit is 0. */
  function Placed(p: Bit, k: nat): (r: bv8)
    requires k < 8
  {
    if p == 0 then 0 else Mask(k)
  }

  /** `Placed` is the left shift the source writes. */
  lemma PlacedIsShift(p: Bit, k: nat)
    requires k < 8
    ensures Placed(p, k) == (p as bv8) << k
  {
  }

  /** Or-ing `ps[i..]` into `acc`, `ps[i]` at bit `7 - i`: steps `i` onwards of
      a loop that packs up to eight bits most significant first. */
  function Accumulate(ps: seq<Bit>, i: nat, acc: bv8): bv8
    requires |ps| <= 8 && i <= |ps|
    decreases |ps| - i
  {
    if i == |ps| then acc else Accumulate(ps, i + 1, acc | Placed(ps[i], 7 - i))
  }

  /** Up to eight bits packed into one byte, the first in bit 7. */
  function PackBits(ps: seq<Bit>): bv8
    requires |ps| <= 8
  {
    Accumulate(ps, 0, 0)
  }

  /** Bit `k` of `acc` is what packing `ps[..i]` puts there: `ps[7 - k]` if
      that element is among the first `i`, 0 otherwise. */
  predicate PrefixBit(acc: bv8, ps: seq<Bit>, i: nat, k: nat)
    requires |ps| <= 8 && i <= |ps| && k < 8
  {
    BitAt(acc, k) == (if 7 - k < i then ps[7 - k] else 0)
  }

  /** `acc` holds `ps[..i]` in bits 7, 6, ... and nothing else (one conjunct
      per bit, so that no quantifier is needed). */
  ghost predicate HoldsPrefix(acc: bv8, ps: seq<Bit>, i: nat)
    requires |ps| <= 8 && i <= |ps|
  {
    && PrefixBit(acc, ps, i, 0) && PrefixBit(acc, ps, i, 1)
    && PrefixBit(acc, ps, i, 2) && PrefixBit(acc, ps, i, 3)
    && PrefixBit(acc, ps, i, 4) && PrefixBit(acc, ps, i, 5)
    && PrefixBit(acc, ps, i, 6) && PrefixBit(acc, ps, i, 7)
  }

  /** One step of the packing loop extends the packed prefix by `ps[i]`. */
  lemma HoldsPrefixStep(acc: bv8, ps: seq<Bit>, i: nat)
    requires |ps| <= 8 && i < |ps|
    requires HoldsPrefix(acc, ps, i)
    ensures HoldsPrefix(acc | Placed(ps[i], 7 - i), ps, i + 1)
  {
  }

  lemma HoldsPrefixAt(acc: bv8, ps: seq<Bit>, i: nat, k: nat)
    requires |ps| <= 8 && i <= |ps| && k < 8
    requires HoldsPrefix(acc, ps, i)
    ensures PrefixBit(acc, ps, i, k)
  {
    if k == 0 {} else if k == 1 {} else if k == 2 {} else if k == 3 {}
    else if k == 4 {} else if k == 5 {} else if k == 6 {} else {}
  }

  lemma {:induction false} AccumulateHolds(ps: seq<Bit>, i: nat, acc: bv8)
    requires |ps| <= 8 && i <= |ps|
    requires HoldsPrefix(acc, ps, i)
    ensures HoldsPrefix(Accumulate(ps, i, acc), ps, |ps|)
    decreases |ps| - i
  {
    if i < |ps| {
      HoldsPrefixStep(acc, ps, i);
      AccumulateHolds(ps, i + 1, acc | Placed(ps[i], 7 - i));
    }
  }

  /** Bit `7 - i` of the packed byte is `ps[i]`; the bits below the last
      one packed are 0. */
  lemma PackBitsAt(ps: seq<Bit>, k: nat)
    requires |ps| <= 8 && k < 8
    ensures BitAt(PackBits(ps), k) == if 7 - k < |ps| then ps[7 - k] else 0
  {
    AccumulateHolds(ps, 0, 0);
    HoldsPrefixAt(PackBits(ps), ps, |ps|, k);
  }

  /** The complement `0xff ^ x` flips every bit. */
  lemma ComplementBit(x: bv8, k: nat)
    requires k < 8
    ensures BitAt(0xFF ^ x, k) == 1 - BitAt(x, k)
  {
  }

  /** A byte is determined by its eight bits. */
  lemma {:induction false} BitsDetermine(x: bv8, y: bv8)
    requires forall k :: 0 <= k < 8 ==> BitAt(x, k) == BitAt(y, k)
    ensures x == y
  {
    assert BitAt(x, 0) == BitAt(y, 0);
    assert BitAt(x, 1) == BitAt(y, 1);
    assert BitAt(x, 2) == BitAt(y, 2);
    assert BitAt(x, 3) == BitAt(y, 3);
    assert BitAt(x, 4) == BitAt(y, 4);
    assert BitAt(x, 5) == BitAt(y, 5);
    assert BitAt(x, 6) == BitAt(y, 6);
    assert BitAt(x, 7) == BitAt(y, 7);
  }
}
