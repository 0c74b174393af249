/**
 The bit iterator: it steps a mask through a word and then moves to the next word.
 */
module BitfieldIterator {
  import opened Words
  import opened Bitfields

  /** Where an iterator stands: a word, and the mask of a bit before byte swapping. */
  datatype Cursor = Cursor(word: int, mask: bv32)

  function TopShift(a: bv6): bv32
    requires a < 32
  {
    0x8000_0000 >> a
  }

  /** The cursor of bit p. */
  function CursorOf(p: nat): Cursor {
    IndexOrder(p % 32, 32);
    AmountExact(32);
    Cursor(p / 32, TopShift(Amount(p % 32)))
  }

  function Half(mask: bv32): bv32 {
    mask >> 1
  }

  function Double(mask: bv32): bv32 {
    mask << 1
  }

  function Next(c: Cursor): Cursor {
    if c.mask == 0x01 then Cursor(c.word + 1, 0x8000_0000) else Cursor(c.word, Half(c.mask))
  }

  function Previous(c: Cursor): Cursor {
    if c.mask == 0x8000_0000 then Cursor(c.word - 1, 0x01) else Cursor(c.word, Double(c.mask))
  }

  // ---------- machine arithmetic ----------

  lemma TopShiftEnds(a: bv6)
    requires a < 32
    ensures TopShift(a) == 0x01 <==> a == 31
    ensures TopShift(a) == 0x8000_0000 <==> a == 0
  {
  }

  lemma TopShiftStep(a: bv6)
    requires a < 31
    ensures Half(TopShift(a)) == TopShift(a + 1)
    ensures Double(TopShift(a + 1)) == TopShift(a)
  {
  }

  lemma NextAt(word: int, a: bv6)
    requires a < 32
    ensures a == 31 ==> Next(Cursor(word, TopShift(a))) == Cursor(word + 1, TopShift(0))
    ensures a < 31 ==> Next(Cursor(word, TopShift(a))) == Cursor(word, TopShift(a + 1))
  {
    hide TopShift, Half;
    TopShiftEnds(a);
    TopShiftEnds(0);
    if a < 31 {
      TopShiftStep(a);
    }
  }

  lemma PreviousAt(word: int, a: bv6)
    requires a < 32
    ensures a == 31 ==> Previous(Cursor(word + 1, TopShift(0))) == Cursor(word, TopShift(a))
    ensures a < 31 ==> Previous(Cursor(word, TopShift(a + 1))) == Cursor(word, TopShift(a))
  {
    hide TopShift, Double;
    TopShiftEnds(31);
    TopShiftEnds(0);
    if a < 31 {
      TopShiftEnds(a + 1);
      TopShiftStep(a);
    }
  }

  lemma TopShiftDiffers(a: bv6, b: bv6)
    requires a < 32 && b < 32 && TopShift(a) == TopShift(b)
    ensures a == b
  {
  }

  lemma EndAmounts()
    ensures Amount(0) == 0 && Amount(31) == 31 && Amount(32) == 32
  {
  }

  // ---------- stepping ----------

  /** Incrementing the iterator at bit p brings it to bit p + 1, across words too, and
      decrementing brings it back. */
  lemma StepsByOne(p: nat)
    ensures Next(CursorOf(p)) == CursorOf(p + 1)
    ensures Previous(CursorOf(p + 1)) == CursorOf(p)
  {
    hide Amount, TopShift, Next, Previous;
    var j := p % 32;
    EndAmounts();
    IndexOrder(j, 32);
    IndexOrder(j, 31);
    NextAt(p / 32, Amount(j));
    PreviousAt(p / 32, Amount(j));
    if j == 31 {
      assert (p + 1) / 32 == p / 32 + 1 && (p + 1) % 32 == 0;
    } else {
      assert (p + 1) / 32 == p / 32 && (p + 1) % 32 == j + 1;
      IndexStep(j);
    }
  }

  /** Different bits have different cursors. */
  lemma CursorExact(p: nat, q: nat)
    ensures CursorOf(p) == CursorOf(q) <==> p == q
  {
    hide Amount, TopShift;
    EndAmounts();
    IndexOrder(p % 32, 32);
    IndexOrder(q % 32, 32);
    if CursorOf(p) == CursorOf(q) {
      TopShiftDiffers(Amount(p % 32), Amount(q % 32));
      IndexOrder(p % 32, q % 32);
      assert p == 32 * (p / 32) + p % 32 && q == 32 * (q / 32) + q % 32;
    }
  }

  class ConstIterator {
    const words: array<bv32>
    var buf: int
    var bit: bv32

    ghost function View(): Cursor
      reads this
    {
      Cursor(buf, bit)
    }

    constructor (words: array<bv32>, ptr: int, offset: nat)
      requires offset < 32
      ensures this.words == words && View() == Cursor(ptr, CursorOf(offset).mask)
    {
      EndAmounts();
      IndexOrder(offset, 32);
      this.words := words;
      buf := ptr;
      bit := TopShift(Amount(offset));
    }

    method Inc()
      modifies this
      ensures View() == Next(old(View()))
    {
      if bit == 0x01 {
        bit := 0x8000_0000;
        buf := buf + 1;
      } else {
        bit := bit >> 1;
      }
    }

    method Dec()
      modifies this
      ensures View() == Previous(old(View()))
    {
      if bit == 0x8000_0000 {
        bit := 0x01;
        buf := buf - 1;
      } else {
        bit := bit << 1;
      }
    }

    method Deref(ghost p: nat) returns (b: bool)
      requires p < 32 * words.Length && View() == CursorOf(p)
      ensures b == BitOf(words[..], p)
    {
      EndAmounts();
      IndexOrder(p % 32, 32);
      b := words[buf] & HostToNetwork(bit) != 0;
    }
  }

  method Begin(f: Bitfield) returns (it: ConstIterator)
    ensures fresh(it) && it.words == f.words && it.View() == CursorOf(0)
  {
    it := new ConstIterator(f.words, 0, 0);
  }

  method End(f: Bitfield) returns (it: ConstIterator)
    ensures fresh(it) && it.words == f.words && it.View() == CursorOf(f.size)
  {
    it := new ConstIterator(f.words, WordCount(f.size) - (if f.size % 32 == 0 then 0 else 1), f.size % 32);
  }

  /** Stepping from begin() to end() takes exactly size() increments and yields the bits in
      order. */
  method Traverse(f: Bitfield) returns (bits: seq<bool>, steps: nat)
    requires f.Valid()
    ensures bits == f.Bits() && steps == f.size
  {
    hide CursorOf, Next, BitOf;
    bits, steps := [], 0;
    var it := Begin(f);
    var end := End(f);
    CursorExact(0, f.size);
    while it.buf != end.buf || it.bit != end.bit
      invariant fresh(it) && fresh(end) && it != end && it.words == f.words && f.Valid()
      invariant steps <= f.size && |f.Bits()| == f.size && bits == f.Bits()[..steps]
      invariant it.View() == CursorOf(steps) && end.View() == CursorOf(f.size)
      invariant it.View() == end.View() <==> steps == f.size
      decreases f.size - steps
    {
      var b := it.Deref(steps);
      bits := bits + [b];
      StepsByOne(steps);
      it.Inc();
      steps := steps + 1;
      CursorExact(steps, f.size);
    }
  }
}
