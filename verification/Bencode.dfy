/**
 The bencoded text of an entry and the entry read from bencoded text, as functions.
 BencodeIo has the stream loops that compute them, BencodeProofs what they promise.
 */
module Bencode {
  import opened Decimal

  /** A node of the hierarchy. A dictionary is a std::map: its fields are in key order. */
  datatype Entry =
    | Int(value: Int64)
    | Str(text: string)
    | List(items: seq<Entry>)
    | Dict(fields: seq<Field>)
    | Undefined
    | Preformatted(raw: string)

  datatype Field = Field(key: string, value: Entry)

  // ---------- std::map<std::string, entry> ----------

  /** Strict lexicographic order on keys. */
  predicate Less(a: string, b: string) {
    b != "" && (a == "" || a[0] < b[0] || (a[0] == b[0] && Less(a[1..], b[1..])))
  }

  predicate Ascending(fs: seq<Field>) {
    forall i, j | 0 <= i < j < |fs| :: Less(fs[i].key, fs[j].key)
  }

  /** map[key] = value. */
  function Put(fs: seq<Field>, key: string, value: Entry): seq<Field> {
    if fs == [] || Less(key, fs[0].key) then [Field(key, value)] + fs
    else if fs[0].key == key then [Field(key, value)] + fs[1..]
    else [fs[0]] + Put(fs[1..], key, value)
  }

  // ---------- encoding ----------

  function EncodeString(s: string): string {
    Digits(|s|) + ":" + s
  }

  function Encode(e: Entry): string
    decreases e, 0
  {
    match e
    case Int(i) => "i" + IntToStr(i) + "e"
    case Str(s) => EncodeString(s)
    case List(es) => "l" + EncodeItems(es, 0) + "e"
    case Dict(fs) => "d" + EncodeFields(fs, 0) + "e"
    case Preformatted(raw) => raw
    case Undefined => "0:"
  }

  /** The text of the items from index i on. */
  function EncodeItems(es: seq<Entry>, i: nat): string
    requires i <= |es|
    decreases es, |es| - i
  {
    if i == |es| then "" else Encode(es[i]) + EncodeItems(es, i + 1)
  }

  /** The text of the fields from index i on. */
  function EncodeFields(fs: seq<Field>, i: nat): string
    requires i <= |fs|
    decreases fs, |fs| - i
  {
    if i == |fs| then "" else EncodeString(fs[i].key) + Encode(fs[i].value) + EncodeFields(fs, i + 1)
  }

  // ---------- decoding ----------

  /** How a decoding attempt ends, and where it leaves the input iterator. Overflown is the
      case where atoi was given the length of a string that no int holds. */
  datatype Outcome = Accepted(e: Entry, pos: nat) | Rejected(pos: nat) | Overflown(pos: nat)

  /** The recursion limit: a node at this depth is rejected. */
  const MAX_DEPTH := 100

  /** The first position at or after pos that holds c, or the end of s. */
  function Until(s: string, pos: nat, c: char): (stop: nat)
    requires pos <= |s|
    ensures pos <= stop <= |s|
    ensures stop < |s| ==> s[stop] == c
    ensures c !in s[pos..stop]
    decreases |s| - pos
  {
    if pos == |s| || s[pos] == c then pos else Until(s, pos + 1, c)
  }

  /** Decodes one node at pos with budget levels of nesting left and string lengths in an
      int that reaches up to max. */
  function Decode(s: string, pos: nat, budget: nat, max: nat): (r: Outcome)
    requires pos <= |s|
    ensures pos <= r.pos <= |s|
    ensures r.Accepted? ==> pos < r.pos
    decreases |s| - pos, 0
  {
    if budget == 0 || pos == |s| then Rejected(pos)
    else if s[pos] == 'i' then DecodeInt(s, pos + 1)
    else if s[pos] == 'l' then DecodeItems(s, pos + 1, budget, max, [])
    else if s[pos] == 'd' then DecodeFields(s, pos + 1, budget, max, [])
    else if IsDigit(s[pos]) then DecodeString(s, pos, max)
    else Rejected(pos)
  }

  function DecodeInt(s: string, pos: nat): (r: Outcome)
    requires pos <= |s|
    ensures pos <= r.pos <= |s|
  {
    var stop := Until(s, pos, 'e');
    if stop == |s| then Rejected(stop)
    else match Strtoll(s[pos..stop])
      case NoDigits => Rejected(stop + 1)
      case Number(v) => Accepted(Int(v), stop + 1)
  }

  function DecodeString(s: string, pos: nat, max: nat): (r: Outcome)
    requires pos < |s| && IsDigit(s[pos])
    ensures pos < r.pos <= |s|
  {
    var stop := Until(s, pos, ':');
    if stop == |s| then Rejected(stop)
    else match Atoi(s[pos..stop], max)
      case Overflow => Overflown(stop + 1)
      case Value(len) =>
        var end := stop + 1 + len;
        if end <= |s| then Accepted(Str(s[stop + 1..end]), end) else Rejected(|s|)
  }

  function DecodeItems(s: string, pos: nat, budget: nat, max: nat, acc: seq<Entry>): (r: Outcome)
    requires pos <= |s| && budget > 0
    ensures pos <= r.pos <= |s|
    decreases |s| - pos, 1
  {
    if pos < |s| && s[pos] == 'e' then Accepted(List(acc), pos + 1)
    else match Decode(s, pos, budget - 1, max)
      case Accepted(e, p) => if p == |s| then Rejected(p) else DecodeItems(s, p, budget, max, acc + [e])
      case failed => failed
  }

  /** A key that is not a string ends the dictionary there and then, without an error. */
  function DecodeFields(s: string, pos: nat, budget: nat, max: nat, acc: seq<Field>): (r: Outcome)
    requires pos <= |s| && budget > 0
    ensures pos <= r.pos <= |s|
    decreases |s| - pos, 1
  {
    if pos < |s| && s[pos] == 'e' then Accepted(Dict(acc), pos + 1)
    else match Decode(s, pos, budget - 1, max)
      case Accepted(k, p) =>
        if !k.Str? then Accepted(Dict(acc), p)
        else (match Decode(s, p, budget - 1, max)
              case Accepted(v, q) =>
                if q == |s| then Rejected(q) else DecodeFields(s, q, budget, max, Put(acc, k.text, v))
              case failed => failed)
      case failed => failed
  }
}
