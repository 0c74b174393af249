/**
 The bits of one 32-bit word that is stored in network byte order on a little-endian host,
 counted from the most significant bit of its first byte in memory.
 */
module Words {

  /** htonl on a little-endian host. */
  function HostToNetwork(x: bv32): bv32 {
    ((x & 0xff) << 24) | ((x & 0xff00) << 8) | ((x >> 8) & 0xff00) | (x >> 24)
  }

  function MaskAt(a: bv6): bv32
    requires a < 32
  {
    HostToNetwork(0x8000_0000 >> a)
  }

  function FrontAt(n: bv6): bv32
    requires n <= 32
  {
    HostToNetwork(0xffff_ffff << (32 - n))
  }

  predicate BitAt(w: bv32, a: bv6)
    requires a < 32
  {
    w & MaskAt(a) != 0
  }

  function SetAt(w: bv32, a: bv6): bv32
    requires a < 32
  {
    w | MaskAt(a)
  }

  function ClearAt(w: bv32, a: bv6): bv32
    requires a < 32
  {
    w & HostToNetwork(!(0x8000_0000 >> a))
  }

  function CutAt(w: bv32, n: bv6): bv32
    requires n <= 32
  {
    w & FrontAt(n)
  }

  // The same on bit numbers.

  function Amount(i: nat): bv6
    requires i < 64
  {
    i as bv6
  }

  /** Bit j of w. */
  predicate Bit(w: bv32, j: nat)
    requires j < 32
  {
    BitAt(w, Amount(j))
  }

  /** w with bit j set. */
  function Set(w: bv32, j: nat): bv32
    requires j < 32
  {
    SetAt(w, Amount(j))
  }

  /** w with bit j cleared. */
  function Clear(w: bv32, j: nat): bv32
    requires j < 32
  {
    ClearAt(w, Amount(j))
  }

  /** w with all but its first n bits cleared. */
  function Cut(w: bv32, n: nat): bv32
    requires n <= 32
  {
    CutAt(w, Amount(n))
  }

  // ---------- machine arithmetic ----------

  lemma OrMask(w: bv32, a: bv6, b: bv6)
    requires a < 32 && b < 32
    ensures (w | MaskAt(a)) & MaskAt(b) != 0 <==> a == b || w & MaskAt(b) != 0
  {
  }

  lemma AndNotMask(w: bv32, a: bv6, b: bv6)
    requires a < 32 && b < 32
    ensures (w & HostToNetwork(!(0x8000_0000 >> a))) & MaskAt(b) != 0 <==> a != b && w & MaskAt(b) != 0
  {
  }

  lemma AndFront(w: bv32, n: bv6, b: bv6)
    requires n <= 32 && b < 32
    ensures (w & FrontAt(n)) & MaskAt(b) != 0 <==> b < n && w & MaskAt(b) != 0
  {
  }

  lemma BitOfOr(w: bv32, a: bv6, b: bv6)
    requires a < 32 && b < 32
    ensures BitAt(w | MaskAt(a), b) <==> a == b || BitAt(w, b)
  {
    hide MaskAt;
    OrMask(w, a, b);
  }

  lemma BitOfAndNot(w: bv32, a: bv6, b: bv6)
    requires a < 32 && b < 32
    ensures BitAt(w & HostToNetwork(!(0x8000_0000 >> a)), b) <==> a != b && BitAt(w, b)
  {
    hide MaskAt, HostToNetwork;
    AndNotMask(w, a, b);
  }

  lemma BitOfFront(w: bv32, n: bv6, b: bv6)
    requires n <= 32 && b < 32
    ensures BitAt(w & FrontAt(n), b) <==> b < n && BitAt(w, b)
  {
    hide MaskAt, FrontAt;
    AndFront(w, n, b);
  }

  lemma SetAtBit(w: bv32, a: bv6, b: bv6)
    requires a < 32 && b < 32
    ensures BitAt(SetAt(w, a), b) <==> a == b || BitAt(w, b)
  {
    hide BitAt, MaskAt;
    BitOfOr(w, a, b);
  }

  lemma ClearAtBit(w: bv32, a: bv6, b: bv6)
    requires a < 32 && b < 32
    ensures BitAt(ClearAt(w, a), b) <==> a != b && BitAt(w, b)
  {
    hide BitAt, HostToNetwork;
    BitOfAndNot(w, a, b);
  }

  lemma CutAtBit(w: bv32, n: bv6, b: bv6)
    requires n <= 32 && b < 32
    ensures BitAt(CutAt(w, n), b) <==> b < n && BitAt(w, b)
  {
    hide BitAt, FrontAt;
    BitOfFront(w, n, b);
  }

  lemma CutAtNone(w: bv32)
    ensures CutAt(w, 0) == 0 && CutAt(w, 32) == w
  {
  }

  lemma CutAtStep(w: bv32, n: bv6)
    requires n < 32 && CutAt(w, n) == 0 && !BitAt(w, n)
    ensures CutAt(w, n + 1) == 0
  {
  }

  lemma ConstantBits(a: bv6)
    requires a < 32
    ensures BitAt(0xffff_ffff, a) && !BitAt(0, a)
  {
  }

  lemma AmountExact(i: nat)
    requires i < 64
    ensures Amount(i) as int == i
  {
  }

  lemma OrderAt(a: bv6, b: bv6)
    ensures a < b <==> (a as int) < (b as int)
  {
  }

  lemma NextAt(a: bv6)
    requires a < 63
    ensures (a + 1) as int == (a as int) + 1
  {
  }

  lemma AmountBack(a: bv6)
    ensures (a as int) < 64 && Amount(a as int) == a
  {
  }

  lemma IndexOrder(i: nat, j: nat)
    requires i < 64 && j < 64
    ensures i < j <==> Amount(i) < Amount(j)
    ensures i == j <==> Amount(i) == Amount(j)
  {
    hide Amount;
    AmountExact(i);
    AmountExact(j);
    OrderAt(Amount(i), Amount(j));
  }

  lemma IndexStep(n: nat)
    requires n < 32
    ensures Amount(n) < 32 && Amount(n + 1) == Amount(n) + 1
  {
    hide Amount;
    AmountExact(n);
    assert Amount(n) < 32 by { OrderAt(Amount(n), 32); }
    NextAt(Amount(n));
    AmountBack(Amount(n) + 1);
  }

  // ---------- bits of words ----------

  /** Or-ing in a mask sets that bit and no other. */
  lemma BitAfterSet(w: bv32, j: nat, k: nat)
    requires j < 32 && k < 32
    ensures Bit(Set(w, j), k) <==> j == k || Bit(w, k)
  {
    hide BitAt, SetAt;
    IndexOrder(j, k);
    SetAtBit(w, Amount(j), Amount(k));
  }

  /** And-ing with the complement of a mask clears that bit and no other. */
  lemma BitAfterClear(w: bv32, j: nat, k: nat)
    requires j < 32 && k < 32
    ensures Bit(Clear(w, j), k) <==> j != k && Bit(w, k)
  {
    hide BitAt, ClearAt;
    IndexOrder(j, k);
    ClearAtBit(w, Amount(j), Amount(k));
  }

  /** And-ing with the mask of the first n bits keeps those and clears the rest. */
  lemma BitAfterCut(w: bv32, n: nat, k: nat)
    requires n <= 32 && k < 32
    ensures Bit(Cut(w, n), k) <==> k < n && Bit(w, k)
  {
    hide BitAt, CutAt;
    IndexOrder(k, n);
    CutAtBit(w, Amount(n), Amount(k));
  }

  lemma {:induction false} NoFrontBits(w: bv32, n: nat)
    requires n <= 32 && forall j | 0 <= j < n :: !Bit(w, j)
    ensures Cut(w, n) == 0
  {
    hide BitAt, CutAt;
    CutAtNone(w);
    if n > 0 {
      NoFrontBits(w, n - 1);
      assert !Bit(w, n - 1);
      IndexStep(n - 1);
      CutAtStep(w, Amount(n - 1));
    }
  }

  /** A word is zero exactly when none of its bits is set, and all bits of ~0 are set. */
  lemma ZeroWord(w: bv32)
    ensures w == 0 <==> forall j | 0 <= j < 32 :: !Bit(w, j)
    ensures forall j | 0 <= j < 32 :: Bit(0xffff_ffff, j)
  {
    hide BitAt, CutAt;
    if forall j | 0 <= j < 32 :: !Bit(w, j) {
      NoFrontBits(w, 32);
      CutAtNone(w);
    }
    forall j | 0 <= j < 32
      ensures !Bit(0, j) && Bit(0xffff_ffff, j)
    {
      IndexStep(j);
      ConstantBits(Amount(j));
    }
  }

  // ---------- bytes in memory ----------

  function ByteAt(w: bv32, a: bv6): bv8
    requires a < 4
  {
    ((w >> (a << 3)) & 0xff) as bv8
  }

  /** Byte a of a word in memory. */
  function Byte(w: bv32, a: nat): bv8
    requires a < 4
  {
    ByteAt(w, Amount(a))
  }

  function SetByteAt(w: bv32, a: bv6, x: bv8): bv32
    requires a < 4
  {
    (w & !(0xff << (a << 3))) | ((x as bv32) << (a << 3))
  }

  /** The word after storing x in its byte a. */
  function SetByte(w: bv32, a: nat, x: bv8): bv32
    requires a < 4
  {
    SetByteAt(w, Amount(a), x)
  }

  /** Bit c of a byte, from its most significant bit. */
  predicate ByteBit(x: bv8, c: nat)
    requires c < 8
  {
    ByteBitAt(x, Amount(c))
  }

  predicate ByteBitAt(x: bv8, c: bv6)
    requires c < 8
  {
    x & (0x80 >> c) != 0
  }

  lemma ByteBitsAt(w: bv32, i: bv6)
    requires i < 32 && i >> 3 < 4 && i & 7 < 8
    ensures BitAt(w, i) <==> ByteBitAt(ByteAt(w, i >> 3), i & 7)
  {
  }

  lemma SplitIndex(i: nat)
    requires i < 32
    ensures Amount(i) >> 3 == Amount(i / 8)
  {
    assert (Amount(i) >> 3) as int == i / 8;
  }

  lemma SplitIndexRest(i: nat)
    requires i < 32
    ensures Amount(i) & 7 == Amount(i % 8)
  {
    assert (Amount(i) & 7) as int == i % 8;
  }

  /** Bit i of a word is bit i mod 8 of its byte i / 8: the layout of BEP 3. */
  lemma BitIsByteBit(w: bv32, i: nat)
    requires i < 32
    ensures Bit(w, i) <==> ByteBit(Byte(w, i / 8), i % 8)
  {
    hide BitAt, ByteBitAt, ByteAt;
    SplitIndex(i);
    SplitIndexRest(i);
    IndexOrder(i / 8, 4);
    IndexOrder(i % 8, 8);
    ByteBitsAt(w, Amount(i));
  }

  lemma ByteAfterStoreAt(w: bv32, a: bv6, b: bv6, x: bv8)
    requires a < 4 && b < 4
    ensures ByteAt(SetByteAt(w, a, x), b) == if a == b then x else ByteAt(w, b)
  {
  }

  lemma ByteAfterStore(w: bv32, a: nat, b: nat, x: bv8)
    requires a < 4 && b < 4
    ensures Byte(SetByte(w, a, x), b) == if a == b then x else Byte(w, b)
  {
    hide ByteAt, SetByteAt;
    ByteAfterStoreAt(w, Amount(a), Amount(b), x);
    IndexOrder(a, b);
  }
}
