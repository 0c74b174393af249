/**
 The bitfield: any number of bits packed in 32-bit words in network byte order, seen as the
 sequence of booleans it stands for.
 */
module Bitfields {
  import opened Words

  function WordCount(bits: nat): nat {
    (bits + 31) / 32
  }

  predicate BitOf(ws: seq<bv32>, i: nat)
    requires i < 32 * |ws|
  {
    Bit(ws[i / 32], i % 32)
  }

  /** The logical bits. */
  function BitsOf(ws: seq<bv32>, size: nat): (r: seq<bool>)
    requires size <= 32 * |ws|
  {
    seq(size, i requires 0 <= i < size => BitOf(ws, i))
  }

  /** The bits behind the last logical one are zero. */
  predicate TailClear(ws: seq<bv32>, size: nat) {
    forall i: nat | size <= i < 32 * |ws| :: !BitOf(ws, i)
  }

  predicate Packed(ws: seq<bv32>, size: nat) {
    |ws| == WordCount(size) && TailClear(ws, size)
  }

  /** Byte j of the buffer. */
  function ByteOf(ws: seq<bv32>, j: nat): bv8
    requires j < 4 * |ws|
  {
    Byte(ws[j / 4], j % 4)
  }

  /** Bit i of a byte string, high bit first in each byte: the layout of BEP 3. */
  predicate WireBit(b: seq<bv8>, i: nat)
    requires i / 8 < |b|
  {
    ByteBit(b[i / 8], i % 8)
  }

  function WireBits(b: seq<bv8>, size: nat): seq<bool>
    requires size <= 8 * |b|
  {
    seq(size, i requires 0 <= i < size => WireBit(b, i))
  }

  lemma BitOfByte(ws: seq<bv32>, i: nat)
    requires i < 32 * |ws|
    ensures BitOf(ws, i) <==> ByteBit(ByteOf(ws, i / 8), i % 8)
  {
    hide Bit, Byte, ByteBit;
    assert (i % 32) / 8 == (i / 8) % 4 && (i / 8) / 4 == i / 32 && (i % 32) % 8 == i % 8;
    BitIsByteBit(ws[i / 32], i % 32);
  }

  /** The word scan: all words are zero exactly when no logical bit is set. */
  lemma ZeroWords(ws: seq<bv32>, size: nat)
    requires Packed(ws, size)
    ensures (forall w <- ws :: w == 0) <==> true !in BitsOf(ws, size)
  {
    hide Bit;
    if forall w <- ws :: w == 0 {
      forall i | 0 <= i < size
        ensures !BitsOf(ws, size)[i]
      {
        assert ws[i / 32] in ws;
        ZeroWord(ws[i / 32]);
      }
    }
    if true !in BitsOf(ws, size) {
      forall w <- ws
        ensures w == 0
      {
        var n :| 0 <= n < |ws| && ws[n] == w;
        forall j | 0 <= j < 32
          ensures !Bit(w, j)
        {
          var i := 32 * n + j;
          assert i / 32 == n && i % 32 == j;
          assert i < size ==> BitsOf(ws, size)[i] in BitsOf(ws, size);
          assert !BitOf(ws, i);
        }
        ZeroWord(w);
      }
    }
  }

  /** Changing one bit of one word changes that logical bit and no other. */
  lemma OneBitChanged(ws: seq<bv32>, size: nat, index: nat, w: bv32, value: bool)
    requires Packed(ws, size) && index < size
    requires forall k | 0 <= k < 32 :: Bit(w, k) <==> if k == index % 32 then value else Bit(ws[index / 32], k)
    ensures Packed(ws[index / 32 := w], size)
    ensures BitsOf(ws[index / 32 := w], size) == BitsOf(ws, size)[index := value]
  {
    hide Bit;
    var r := ws[index / 32 := w];
    forall i: nat | i < 32 * |ws|
      ensures BitOf(r, i) <==> if i == index then value else BitOf(ws, i)
    {
      assert i == 32 * (i / 32) + i % 32 && index == 32 * (index / 32) + index % 32;
    }
  }

  /** Every operation on bitfields, as it acts on booleans. */
  datatype Op = Assign(b: seq<bv8>, bits: nat) | SetBit(i: nat) | ClearBit(i: nat) | SetAll | ClearAll

  predicate Allowed(op: Op, size: nat) {
    match op
    case Assign(b, bits) => (bits + 7) / 8 <= |b|
    case SetBit(i) => i < size
    case ClearBit(i) => i < size
    case _ => true
  }

  function Apply(op: Op, s: seq<bool>): seq<bool>
    requires Allowed(op, |s|)
  {
    match op
    case Assign(b, bits) => WireBits(b, bits)
    case SetBit(i) => s[i := true]
    case ClearBit(i) => s[i := false]
    case SetAll => seq(|s|, _ => true)
    case ClearAll => seq(|s|, _ => false)
  }

  predicate AllAllowed(ops: seq<Op>, s: seq<bool>) {
    ops == [] || (Allowed(ops[0], |s|) && AllAllowed(ops[1..], Apply(ops[0], s)))
  }

  function ApplyAll(ops: seq<Op>, s: seq<bool>): seq<bool>
    requires AllAllowed(ops, s)
  {
    if ops == [] then s else ApplyAll(ops[1..], Apply(ops[0], s))
  }

  class Bitfield {
    var size: nat
    var words: array<bv32>

    ghost predicate Valid()
      reads this, words
    {
      Packed(words[..], size)
    }

    ghost function Bits(): seq<bool>
      requires Valid()
      reads this, words
    {
      BitsOf(words[..], size)
    }

    constructor ()
      ensures Valid() && Bits() == [] && fresh(words)
    {
      size := 0;
      words := new bv32[0];
    }

    /** resize(bits): only the new size is promised, not what the buffer holds. */
    method Resize(bits: nat)
      modifies this
      ensures size == bits && fresh(words) && words.Length == WordCount(bits)
    {
      size := bits;
      words := new bv32[WordCount(bits)];
    }

    method GetBit(index: nat) returns (bit: bool)
      requires Valid() && index < size
      ensures bit == Bits()[index]
    {
      bit := Bit(words[index / 32], index % 32);
    }

    method SetBit(index: nat)
      requires Valid() && index < size
      modifies words
      ensures Valid() && Bits() == old(Bits())[index := true]
    {
      hide Bit, Set;
      ghost var ws, w := words[..], Set(words[index / 32], index % 32);
      forall k | 0 <= k < 32
        ensures Bit(w, k) <==> if k == index % 32 then true else Bit(ws[index / 32], k)
      {
        BitAfterSet(ws[index / 32], index % 32, k);
      }
      OneBitChanged(ws, size, index, w, true);
      words[index / 32] := Set(words[index / 32], index % 32);
      assert words[..] == ws[index / 32 := w];
    }

    method ClearBit(index: nat)
      requires Valid() && index < size
      modifies words
      ensures Valid() && Bits() == old(Bits())[index := false]
    {
      hide Bit, Clear;
      ghost var ws, w := words[..], Clear(words[index / 32], index % 32);
      forall k | 0 <= k < 32
        ensures Bit(w, k) <==> if k == index % 32 then false else Bit(ws[index / 32], k)
      {
        BitAfterClear(ws[index / 32], index % 32, k);
      }
      OneBitChanged(ws, size, index, w, false);
      words[index / 32] := Clear(words[index / 32], index % 32);
      assert words[..] == ws[index / 32 := w];
    }

    method ClearTrailingBits()
      requires words.Length == WordCount(size)
      modifies words
      ensures Valid()
      ensures BitsOf(words[..], size) == old(BitsOf(words[..], size))
    {
      hide Bit, Cut;
      ghost var ws := words[..];
      if size % 32 != 0 {
        var last := WordCount(size) - 1;
        words[last] := Cut(words[last], size % 32);
        forall k | 0 <= k < 32
          ensures Bit(words[last], k) <==> k < size % 32 && Bit(ws[last], k)
        {
          BitAfterCut(ws[last], size % 32, k);
        }
      }
      ghost var r := words[..];
      forall i: nat | i < 32 * |r|
        ensures BitOf(r, i) <==> i < size && BitOf(ws, i)
      {
        assert i == 32 * (i / 32) + i % 32 && size == 32 * (size / 32) + size % 32;
      }
    }

    method SetAll()
      requires Valid()
      modifies words
      ensures Valid() && Bits() == seq(size, _ => true)
    {
      if size == 0 { return; }
      hide Bit;
      for n := 0 to words.Length
        invariant forall m | 0 <= m < n :: words[m] == 0xffff_ffff
      {
        words[n] := 0xffff_ffff;
      }
      ZeroWord(0);
      ghost var ws := words[..];
      ClearTrailingBits();
      assert forall i: nat | i < size :: BitOf(ws, i);
    }

    method ClearAll()
      requires Valid()
      modifies words
      ensures Valid() && Bits() == seq(size, _ => false)
    {
      if size == 0 { return; }
      hide Bit;
      for n := 0 to words.Length
        invariant forall m | 0 <= m < n :: words[m] == 0
      {
        words[n] := 0;
      }
      ZeroWord(0);
      ghost var ws := words[..];
      assert forall i: nat | i < 32 * |ws| :: !BitOf(ws, i);
    }

    method NoneSet() returns (none: bool)
      requires Valid()
      ensures none <==> true !in Bits()
    {
      ZeroWords(words[..], size);
      if size == 0 { return true; }
      for n := 0 to words.Length
        invariant forall m | 0 <= m < n :: words[m] == 0
      {
        if words[n] != 0 {
          assert words[n] in words[..];
          return false;
        }
      }
      return true;
    }

    /** memcpy(buf(), b, count) */
    method CopyBytes(b: seq<bv8>, count: nat)
      requires count <= |b| && count <= 4 * words.Length
      modifies words
      ensures forall j | 0 <= j < count :: ByteOf(words[..], j) == b[j]
    {
      hide Byte, SetByte;
      for n := 0 to count
        invariant forall j | 0 <= j < n :: ByteOf(words[..], j) == b[j]
      {
        ghost var ws := words[..];
        words[n / 4] := SetByte(words[n / 4], n % 4, b[n]);
        forall j | 0 <= j < n + 1
          ensures ByteOf(words[..], j) == b[j]
        {
          assert ByteOf(ws, j) == Byte(ws[j / 4], j % 4);
          ByteAfterStore(ws[n / 4], n % 4, j % 4, b[n]);
        }
      }
    }

    /** assign(b, bits) */
    method Assign(b: seq<bv8>, bits: nat)
      requires (bits + 7) / 8 <= |b|
      modifies this
      ensures Valid() && fresh(words) && Bits() == WireBits(b, bits)
    {
      Resize(bits);
      if bits > 0 {
        CopyBytes(b, (bits + 7) / 8);
        ghost var ws := words[..];
        forall i | 0 <= i < bits
          ensures BitOf(ws, i) == WireBit(b, i)
        {
          BitOfByte(ws, i);
        }
        ClearTrailingBits();
      }
    }

    /** data(): the whole words, as bytes. */
    function Data(): seq<bv8>
      reads this, words
    {
      seq(4 * words.Length, j requires 0 <= j < 4 * words.Length reads this, words => ByteOf(words[..], j))
    }

    /** operator=: assigning from the other field's buffer gives an equal field. */
    method CopyFrom(rhs: Bitfield)
      requires Valid() && rhs.Valid()
      modifies this
      ensures Valid() && Bits() == old(rhs.Bits())
    {
      if rhs == this { return; }
      ghost var ws := rhs.words[..];
      var bytes := rhs.Data();
      var bits := rhs.size;
      Assign(bytes, bits);
      hide Bit, Byte, ByteBit;
      forall i | 0 <= i < bits
        ensures WireBit(bytes, i) == BitOf(ws, i)
      {
        BitOfByte(ws, i);
      }
    }

    method Run(ops: seq<Op>)
      requires Valid() && AllAllowed(ops, Bits())
      modifies this, words
      ensures Valid() && Bits() == ApplyAll(ops, old(Bits()))
    {
      ghost var s := Bits();
      for n := 0 to |ops|
        invariant Valid() && (words == old(words) || fresh(words))
        invariant AllAllowed(ops[n..], Bits()) && ApplyAll(ops[n..], Bits()) == ApplyAll(ops, s)
      {
        assert ops[n..][1..] == ops[n + 1..];
        ghost var before := Bits();
        match ops[n] {
          case Assign(b, bits) => Assign(b, bits);
          case SetBit(i) => SetBit(i);
          case ClearBit(i) => ClearBit(i);
          case SetAll => SetAll();
          case ClearAll => ClearAll();
        }
        assert Bits() == Apply(ops[n], before);
      }
    }
  }
}
