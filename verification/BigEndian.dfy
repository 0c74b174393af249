/**
 Integers as big-endian bytes: the byte loops of read_impl and write_impl, for signed and
 unsigned types of any number of bytes.
 */
module BigEndian {

  type Byte = x: int | 0 <= x < 256

  /** val >> (8 * i), which is arithmetic: it rounds towards minus infinity. */
  function Shift(val: int, i: nat): int
    decreases i
  {
    if i == 0 then val else Shift(val / 256, i - 1)
  }

  /** The bytes of val, most significant first. */
  function Written(val: int, size: nat): (r: seq<Byte>)
    ensures |r| == size
    decreases size
  {
    if size == 0 then [] else Written(val / 256, size - 1) + [val % 256]
  }

  function Value(bytes: seq<Byte>): nat {
    if bytes == [] then 0 else 256 * Value(bytes[..|bytes| - 1]) + bytes[|bytes| - 1]
  }

  /** The number of values of a type of so many bytes. */
  function Range(size: nat): (r: nat)
    ensures r > 0 && (size > 0 ==> r % 256 == 0)
  {
    if size == 0 then 1 else 256 * Range(size - 1)
  }

  /** The values of a type. */
  predicate Fits(val: int, size: nat, signed: bool) {
    var n: int := Range(size);
    if signed then -n <= 2 * val < n else 0 <= val < n
  }

  /** The value of the type that has these bits. */
  function Narrow(bits: nat, size: nat, signed: bool): int {
    if signed && 2 * bits >= Range(size) then bits - Range(size) else bits
  }

  /** The value read from size bytes. */
  function ReadValue(bytes: seq<Byte>, signed: bool): int {
    Narrow(Value(bytes), |bytes|, signed)
  }

  lemma {:induction false} ShiftNext(val: int, i: nat)
    ensures Shift(val, i) / 256 == Shift(val, i + 1)
    decreases i
  {
    if i > 0 { ShiftNext(val / 256, i - 1); }
  }

  lemma {:induction false} ValueBound(bytes: seq<Byte>)
    ensures Value(bytes) < Range(|bytes|)
  {
    if bytes != [] { ValueBound(bytes[..|bytes| - 1]); }
  }

  /** The bytes of val hold its remainder, and the shift what is above them. */
  lemma {:induction false} WrittenValue(val: int, size: nat)
    ensures val == Shift(val, size) * Range(size) + Value(Written(val, size))
    decreases size
  {
    if size > 0 {
      var q, w := val / 256, Written(val / 256, size - 1);
      WrittenValue(q, size - 1);
      assert Written(val, size)[..size - 1] == w;
      assert Value(Written(val, size)) == 256 * Value(w) + val % 256;
      Scale(Shift(q, size - 1), Range(size - 1), Value(w));
    }
  }

  lemma Scale(high: int, range: int, low: int)
    ensures 256 * (high * range + low) == high * (256 * range) + 256 * low
  {
  }

  /** Reading the bytes of any value of a type gives that value, negative or not. */
  lemma ReadWritten(val: int, size: nat, signed: bool)
    requires size > 0 && Fits(val, size, signed)
    ensures ReadValue(Written(val, size), signed) == val
  {
    var bits, n: int := Value(Written(val, size)), Range(size);
    assert bits == if val < 0 then val + n else val by {
      WrittenValue(val, size);
      ValueBound(Written(val, size));
      HighPart(val, Shift(val, size), bits, n);
    }
    hide Value, Written, Range;
  }

  lemma HighPart(val: int, high: int, bits: int, n: int)
    requires val == high * n + bits && 0 <= bits < n && -n <= val < n
    ensures bits == if val < 0 then val + n else val
  {
    assert high >= 1 ==> high * n >= n;
    assert high <= -2 ==> high * n <= -2 * n;
    assert high == 0 || high == -1;
  }

  /** write_impl: appends the bytes of val to the output. */
  method WriteImpl(val: int, size: nat, out: seq<Byte>) returns (r: seq<Byte>)
    ensures r == out + Written(val, size)
  {
    r := out;
    var i := size;
    assert r == out + Written(Shift(val, i), size - i);
    while i > 0
      invariant 0 <= i <= size
      invariant r == out + Written(Shift(val, i), size - i)
    {
      i := i - 1;
      ShiftNext(val, i);
      r := r + [Shift(val, i) % 256];
    }
  }

  /** read_impl: reads size bytes at start into a value of the type, bit by bit as the type
      keeps them, and advances. */
  method ReadImpl(bytes: seq<Byte>, start: nat, size: nat, signed: bool) returns (ret: int, pos: nat)
    requires size > 0 && start + size <= |bytes|
    ensures pos == start + size && ret == ReadValue(bytes[start..pos], signed)
  {
    ghost var field := bytes[start..start + size];
    ret, pos := 0, start;
    assert Narrow(0, size, signed) == 0;
    for i := 0 to size
      invariant pos == start + i
      invariant ret == Narrow(Value(field[..i]), size, signed)
    {
      ValueBound(field[..i]);
      RangeGrows(i, size - 1);
      assert field[..i + 1][..i] == field[..i] && field[i] == bytes[pos];
      ValueBound(field[..i + 1]);
      RangeGrows(i + 1, size);
      ret := Narrow(ret * 256 + bytes[pos], size, signed);
      pos := pos + 1;
    }
    assert field[..size] == field;
  }

  lemma {:induction false} RangeGrows(i: nat, j: nat)
    requires i <= j
    ensures Range(i) <= Range(j)
    decreases j
  {
    if i < j { RangeGrows(i, j - 1); }
  }
}
