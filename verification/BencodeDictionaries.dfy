/**
 What the decoder makes of the text of any sequence of keys and values between 'd' and 'e',
 in any order, with repetitions, and with keys that are no strings.
 */
module BencodeDictionaries {
  import opened Decimal
  import opened Bencode
  import opened BencodeProofs

  /** One key and its value. Preformatted text as a value stands for any text whatever. */
  datatype Pair = Pair(key: Entry, value: Entry)

  function PairsText(ps: seq<Pair>, i: nat): string
    requires i <= |ps|
    decreases |ps| - i
  {
    if i == |ps| then "" else Encode(ps[i].key) + Encode(ps[i].value) + PairsText(ps, i + 1)
  }

  /** An entry that decodes to a string: a string, or an undefined entry. */
  predicate IsKey(e: Entry) {
    Settled(e).Str?
  }

  /** The index of the first key from i on that is no string, or the number of pairs. */
  function Stop(ps: seq<Pair>, i: nat): (n: nat)
    requires i <= |ps|
    ensures i <= n <= |ps|
    ensures n < |ps| ==> !IsKey(ps[n].key)
    ensures forall j | i <= j < n :: IsKey(ps[j].key)
    decreases |ps| - i
  {
    if i == |ps| || !IsKey(ps[i].key) then i else Stop(ps, i + 1)
  }

  /** Everything the decoder gets to read is text of regular entries within its limits. */
  predicate Readable(ps: seq<Pair>, budget: nat, max: nat) {
    forall j | 0 <= j < |ps| && j <= Stop(ps, 0) ::
      && Regular(ps[j].key) && Fits(ps[j].key, budget, max)
      && (j < Stop(ps, 0) ==> Regular(ps[j].value) && Fits(ps[j].value, budget, max))
  }

  /** The fields stored for the pairs from i on, up to the first key that is no string. */
  function Filled(acc: seq<Field>, ps: seq<Pair>, i: nat): seq<Field>
    requires i <= |ps|
    decreases |ps| - i
  {
    if i == |ps| || !IsKey(ps[i].key) then acc
    else Filled(Put(acc, Settled(ps[i].key).text, Settled(ps[i].value)), ps, i + 1)
  }

  /** The characters read from pair i on: up to and including the first key that is no
      string, or else the closing 'e'. */
  function Consumed(ps: seq<Pair>, i: nat): nat
    requires i <= |ps|
    decreases |ps| - i
  {
    if i == |ps| then 1
    else if !IsKey(ps[i].key) then |Encode(ps[i].key)|
    else |Encode(ps[i].key)| + |Encode(ps[i].value)| + Consumed(ps, i + 1)
  }

  lemma {:induction false} ConsumedExact(ps: seq<Pair>, i: nat)
    requires i <= |ps|
    ensures Consumed(ps, i) <= |PairsText(ps, i)| + 1
    ensures Consumed(ps, i) == |PairsText(ps, i)| + 1 <==> Stop(ps, i) == |ps|
    decreases |ps| - i
  {
    hide Encode;
    if i < |ps| { ConsumedExact(ps, i + 1); }
  }

  /** Field f of the map was stored last for its key, by pair j. */
  predicate LastFor(ps: seq<Pair>, i: nat, f: Field, j: nat)
    requires i <= |ps|
  {
    && i <= j < Stop(ps, i) && f == Field(Settled(ps[j].key).text, Settled(ps[j].value))
    && forall k | j < k < Stop(ps, i) :: Settled(ps[k].key).text != f.key
  }

  lemma {:induction false} FilledFrom(acc: seq<Field>, ps: seq<Pair>, i: nat, f: Field)
    requires i <= |ps| && Ascending(acc)
    ensures Ascending(Filled(acc, ps, i))
    ensures f in Filled(acc, ps, i) <==>
      || (exists j: nat :: LastFor(ps, i, f, j))
      || (f in acc && forall k | i <= k < Stop(ps, i) :: Settled(ps[k].key).text != f.key)
    decreases |ps| - i
  {
    hide Ascending, Put, Settled;
    if i < |ps| && IsKey(ps[i].key) {
      var n, key, value := i + 1, Settled(ps[i].key).text, Settled(ps[i].value);
      PutUpdates(acc, key, value);
      FilledFrom(Put(acc, key, value), ps, n, f);
      assert Stop(ps, i) == Stop(ps, n);
      if j: nat :| LastFor(ps, n, f, j) {
        assert LastFor(ps, i, f, j);
      } else if f == Field(key, value) && forall k | i < k < Stop(ps, i) :: Settled(ps[k].key).text != key {
        assert LastFor(ps, i, f, i);
      } else {
        assert forall j: nat :: LastFor(ps, i, f, j) ==> j == i || LastFor(ps, n, f, j);
      }
    }
  }

  /** The map that a run of pairs leaves: its keys are in order, and under each one is the
      value stored last before the first key that is no string. */
  lemma FilledLastWins(ps: seq<Pair>, f: Field)
    ensures Ascending(Filled([], ps, 0))
    ensures f in Filled([], ps, 0) <==> exists j: nat :: LastFor(ps, 0, f, j)
  {
    FilledFrom([], ps, 0, f);
  }

  // ---------- decoding ----------

  /** After the pairs comes the closing 'e'; or anything at all, if some key is no string. */
  predicate Closed(ps: seq<Pair>, tail: string) {
    Stop(ps, 0) == |ps| ==> "e" <= tail
  }

  lemma FirstPair(ps: seq<Pair>, i: nat, s: string, pos: nat, tail: string)
    requires i < |ps| && Regular(ps[i].key) && At(s, pos, PairsText(ps, i) + tail)
    ensures At(s, pos, Encode(ps[i].key)) && s[pos] != 'e'
    ensures var value := pos + |Encode(ps[i].key)|;
      var next := value + |Encode(ps[i].value)|;
      At(s, value, Encode(ps[i].value)) && At(s, next, PairsText(ps, i + 1) + tail)
  {
    hide Encode;
    var k, v := Encode(ps[i].key), Encode(ps[i].value);
    AtSplit3(s, pos, k + v, PairsText(ps, i + 1), tail);
    AtSplit(s, pos, k, v);
    EncodeStarts(ps[i].key);
  }

  lemma MoreText(ps: seq<Pair>, i: nat, tail: string)
    requires i <= |ps| && (i < |ps| ==> Regular(ps[i].key)) && (i == |ps| ==> "e" <= tail)
    ensures PairsText(ps, i) + tail != ""
  {
    if i < |ps| { EncodeStarts(ps[i].key); }
  }

  lemma FieldsStep(s: string, pos: nat, budget: nat, max: nat, acc: seq<Field>)
    requires pos < |s| && s[pos] != 'e' && budget > 0 && Decode(s, pos, budget - 1, max).Accepted?
    ensures var k := Decode(s, pos, budget - 1, max);
      var v := Decode(s, k.pos, budget - 1, max);
      && (!k.e.Str? ==> DecodeFields(s, pos, budget, max, acc) == Accepted(Dict(acc), k.pos))
      && (k.e.Str? && v.Accepted? && v.pos < |s| ==>
            DecodeFields(s, pos, budget, max, acc) == DecodeFields(s, v.pos, budget, max, Put(acc, k.e.text, v.e)))
  {
    hide Decode, Put;
  }

  lemma {:induction false} DecodePairs(
    ps: seq<Pair>, i: nat, s: string, pos: nat, budget: nat, max: nat, acc: seq<Field>, tail: string)
    requires i <= Stop(ps, 0) && budget > 0 && Readable(ps, budget - 1, max) && Closed(ps, tail)
    requires At(s, pos, PairsText(ps, i) + tail)
    ensures DecodeFields(s, pos, budget, max, acc) == Accepted(Dict(Filled(acc, ps, i)), pos + Consumed(ps, i))
    decreases |ps| - i
  {
    hide Decode, Encode, Put, Settled, Fits, Regular;
    if i < |ps| {
      var key, value := ps[i].key, ps[i].value;
      assert i < Stop(ps, 0) || i == Stop(ps, 0);
      FirstPair(ps, i, s, pos, tail);
      DecodeEncoded(key, s, pos, budget - 1, max);
      FieldsStep(s, pos, budget, max, acc);
      if IsKey(key) {
        DecodeEncoded(value, s, pos + |Encode(key)|, budget - 1, max);
        MoreText(ps, i + 1, tail);
        var next := Put(acc, Settled(key).text, Settled(value));
        DecodePairs(ps, i + 1, s, pos + |Encode(key)| + |Encode(value)|, budget, max, next, tail);
      }
    }
  }

  /** Any sequence of pairs behind 'd' is accepted as a dictionary, without an error, with the
      fields stored before the first key that is no string. The decoder stops behind that key,
      and reads its own closing 'e' if and only if every key is a string. */
  lemma NonStringKeyEndsDictionary(ps: seq<Pair>, tail: string)
    requires Readable(ps, MAX_DEPTH - 1, INT32_MAX)
    requires (forall i | 0 <= i < |ps| :: IsKey(ps[i].key)) ==> "e" <= tail
    ensures var text := "d" + PairsText(ps, 0);
      var r := Decode(text + tail, 0, MAX_DEPTH, INT32_MAX);
      && r == Accepted(Dict(Filled([], ps, 0)), 1 + Consumed(ps, 0))
      && r.pos <= |text| + 1
      && (r.pos == |text| + 1 <==> forall i | 0 <= i < |ps| :: IsKey(ps[i].key))
  {
    hide DecodeFields, DecodeItems, DecodeInt, DecodeString, Filled, Consumed, PairsText, Fits, Regular, IsKey;
    var body := PairsText(ps, 0) + tail;
    var s := "d" + PairsText(ps, 0) + tail;
    assert s[1..1 + |body|] == body;
    AtSlice(s, 1, body);
    ConsumedExact(ps, 0);
    DecodePairs(ps, 0, s, 1, MAX_DEPTH, INT32_MAX, [], tail);
  }

  /** A dictionary whose one key is the number 1: accepted as empty, its value and its closing
      'e' left unread. */
  lemma NumberKeyEndsDictionary()
    ensures Decode("di1e0:e", 0, MAX_DEPTH, INT32_MAX) == Accepted(Dict([]), 4)
  {
  }
}
