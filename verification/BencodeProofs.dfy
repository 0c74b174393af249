/**
 What bencode and bdecode promise together: encoding and decoding are inverse up to the
 nesting limit, encodings are uniquely decodable, and decoding normalises.
 */
module BencodeProofs {
  import opened Decimal
  import opened Bencode

  /** An entry whose text is determined by its structure: its dictionaries are maps, and it
      holds no preformatted text. */
  predicate Regular(e: Entry) {
    match e
    case List(es) => forall i | 0 <= i < |es| :: Regular(es[i])
    case Dict(fs) => Ascending(fs) && forall i | 0 <= i < |fs| :: Regular(fs[i].value)
    case _ => !e.Preformatted?
  }

  /** The same entry with an empty string for every undefined node. */
  function Settled(e: Entry): Entry {
    match e
    case List(es) => List(seq(|es|, i requires 0 <= i < |es| => Settled(es[i])))
    case Dict(fs) => Dict(seq(|fs|, i requires 0 <= i < |fs| => Field(fs[i].key, Settled(fs[i].value))))
    case Undefined => Str("")
    case _ => e
  }

  /** An entry of int64 integers, strings, lists and dictionaries only. */
  predicate Plain(e: Entry) {
    Regular(e) && Settled(e) == e
  }

  /** The number of node levels. */
  function Levels(e: Entry): (n: nat)
    ensures n >= 1
    decreases e, 0
  {
    match e
    case List(es) => 1 + ItemLevels(es, 0)
    case Dict(fs) => 1 + FieldLevels(fs, 0)
    case _ => 1
  }

  function Max(a: nat, b: nat): nat {
    if a < b then b else a
  }

  function ItemLevels(es: seq<Entry>, i: nat): nat
    requires i <= |es|
    decreases es, |es| - i
  {
    if i == |es| then 0 else Max(Levels(es[i]), ItemLevels(es, i + 1))
  }

  function FieldLevels(fs: seq<Field>, i: nat): nat
    requires i <= |fs|
    decreases fs, |fs| - i
  {
    if i == |fs| then 0 else Max(Levels(fs[i].value), FieldLevels(fs, i + 1))
  }

  /** The length of the longest string, keys included. */
  function Longest(e: Entry): nat
    decreases e, 0
  {
    match e
    case Str(t) => |t|
    case List(es) => LongestItem(es, 0)
    case Dict(fs) => LongestField(fs, 0)
    case _ => 0
  }

  function LongestItem(es: seq<Entry>, i: nat): nat
    requires i <= |es|
    decreases es, |es| - i
  {
    if i == |es| then 0 else Max(Longest(es[i]), LongestItem(es, i + 1))
  }

  function LongestField(fs: seq<Field>, i: nat): nat
    requires i <= |fs|
    decreases fs, |fs| - i
  {
    if i == |fs| then 0 else Max(Max(|fs[i].key|, Longest(fs[i].value)), LongestField(fs, i + 1))
  }

  /** An entry within the decoder's limits. */
  predicate Fits(e: Entry, budget: nat, max: nat) {
    Levels(e) <= budget && Longest(e) <= max
  }

  // ---------- text found in place ----------

  predicate At(s: string, pos: nat, t: string)
    decreases |t|
  {
    if t == "" then pos <= |s| else pos < |s| && s[pos] == t[0] && At(s, pos + 1, t[1..])
  }

  lemma {:induction false} AtSlice(s: string, pos: nat, t: string)
    ensures At(s, pos, t) <==> pos + |t| <= |s| && s[pos..pos + |t|] == t
    decreases |t|
  {
    if t != "" {
      AtSlice(s, pos + 1, t[1..]);
      if pos + |t| <= |s| {
        assert s[pos..pos + |t|] == [s[pos]] + s[pos + 1..pos + |t|];
      }
    }
  }

  lemma {:induction false} AtSplit(s: string, pos: nat, t: string, u: string)
    requires At(s, pos, t + u)
    ensures At(s, pos, t) && At(s, pos + |t|, u)
    ensures pos + |t| + |u| <= |s|
    decreases |t|
  {
    if t == "" {
      assert t + u == u;
      AtSlice(s, pos, u);
    } else {
      assert (t + u)[1..] == t[1..] + u;
      AtSplit(s, pos + 1, t[1..], u);
    }
  }

  lemma AtSplit3(s: string, pos: nat, t: string, u: string, v: string)
    requires At(s, pos, t + u + v)
    ensures At(s, pos, t) && At(s, pos + |t|, u + v)
    ensures pos + |t| + |u| + |v| <= |s|
  {
    assert t + u + v == t + (u + v);
    AtSplit(s, pos, t, u + v);
  }

  lemma {:induction false} UntilFinds(s: string, pos: nat, t: string, c: char)
    requires At(s, pos, t + [c]) && c !in t
    ensures Until(s, pos, c) == pos + |t| < |s| && s[pos..pos + |t|] == t
    decreases |t|
  {
    AtSplit(s, pos, t, [c]);
    AtSlice(s, pos, t);
    if t != "" {
      assert (t + [c])[1..] == t[1..] + [c];
      UntilFinds(s, pos + 1, t[1..], c);
    }
  }

  lemma EncodeStarts(e: Entry)
    requires Regular(e)
    ensures Encode(e) != "" && Encode(e)[0] != 'e'
  {
  }

  // ---------- leaves ----------

  lemma DecodeEncodedInt(i: Int64, s: string, pos: nat)
    requires At(s, pos, IntToStr(i) + "e")
    ensures DecodeInt(s, pos) == Accepted(Int(i), pos + |IntToStr(i)| + 1)
  {
    hide Strtoll, IntToStr, Digits;
    var t := IntToStr(i);
    UntilFinds(s, pos, t, 'e');
    StrtollReadsIntToStr(i);
  }

  lemma DecodeStringAt(s: string, pos: nat, stop: nat, len: nat, max: nat)
    requires pos < stop < |s| && stop == Until(s, pos, ':') && IsDigit(s[pos]) && stop + 1 + len <= |s|
    requires IsDigit(s[pos..stop][0]) && Atoi(s[pos..stop], max) == Value(len)
    ensures DecodeString(s, pos, max) == Accepted(Str(s[stop + 1..stop + 1 + len]), stop + 1 + len)
  {
    hide Atoi, Until, IsDigit;
  }

  lemma DecodeEncodedString(t: string, s: string, pos: nat, max: nat)
    requires At(s, pos, EncodeString(t))
    ensures s[pos] == Digits(|t|)[0]
    ensures |t| <= max ==> DecodeString(s, pos, max) == Accepted(Str(t), pos + |EncodeString(t)|)
    ensures |t| > max ==> DecodeString(s, pos, max).Overflown?
  {
    hide Scan, Atoi, At, Digits;
    var n := Digits(|t|);
    AtSplit(s, pos, n + ":", t);
    UntilFinds(s, pos, n, ':');
    AtSlice(s, pos + |n| + 1, t);
    AtoiReadsDigits(|t|, max);
  }

  // ---------- decoding what was encoded ----------

  lemma DecodeEncodedLeaf(e: Entry, s: string, pos: nat, budget: nat, max: nat)
    requires Regular(e) && !e.List? && !e.Dict? && At(s, pos, Encode(e)) && budget > 0
    ensures Longest(e) <= max ==> Decode(s, pos, budget, max) == Accepted(Settled(e), pos + |Encode(e)|)
    ensures Longest(e) > max ==> Decode(s, pos, budget, max).Overflown?
  {
    hide DecodeInt, DecodeString;
    match e {
      case Int(i) =>
        assert Encode(e) == "i" + (IntToStr(i) + "e");
        AtSplit(s, pos, "i", IntToStr(i) + "e");
        DecodeEncodedInt(i, s, pos + 1);
      case Str(t) => DecodeEncodedString(t, s, pos, max);
      case Undefined =>
        assert "0:" == EncodeString("");
        DecodeEncodedString("", s, pos, max);
    }
  }

  lemma OpenBracket(c: char, body: string, s: string, pos: nat)
    requires At(s, pos, [c] + body + "e")
    ensures s[pos] == c && At(s, pos + 1, body + "e")
  {
    assert [c] + body + "e" == [c] + (body + "e");
    AtSplit(s, pos, [c], body + "e");
  }

  // ---------- one item or field at a time ----------

  lemma FirstItem(es: seq<Entry>, i: nat, s: string, pos: nat)
    requires i < |es| && Regular(es[i]) && At(s, pos, EncodeItems(es, i) + "e")
    ensures At(s, pos, Encode(es[i])) && s[pos] != 'e'
    ensures var next := pos + |Encode(es[i])|;
      && next + |EncodeItems(es, i + 1)| == pos + |EncodeItems(es, i)|
      && next < |s| && At(s, next, EncodeItems(es, i + 1) + "e")
  {
    hide Encode;
    AtSplit3(s, pos, Encode(es[i]), EncodeItems(es, i + 1), "e");
    EncodeStarts(es[i]);
  }

  lemma NextItem(s: string, pos: nat, budget: nat, max: nat, acc: seq<Entry>)
    requires pos < |s| && s[pos] != 'e' && budget > 0
    ensures var r := Decode(s, pos, budget - 1, max);
      DecodeItems(s, pos, budget, max, acc) ==
      if !r.Accepted? then r
      else if r.pos == |s| then Rejected(r.pos)
      else DecodeItems(s, r.pos, budget, max, acc + [r.e])
  {
    hide Decode;
  }

  lemma FirstField(fs: seq<Field>, i: nat, s: string, pos: nat)
    requires i < |fs| && At(s, pos, EncodeFields(fs, i) + "e")
    ensures At(s, pos, EncodeString(fs[i].key)) && IsDigit(s[pos])
    ensures At(s, pos + |EncodeString(fs[i].key)|, Encode(fs[i].value))
    ensures var next := pos + |EncodeString(fs[i].key)| + |Encode(fs[i].value)|;
      && next + |EncodeFields(fs, i + 1)| == pos + |EncodeFields(fs, i)|
      && next < |s| && At(s, next, EncodeFields(fs, i + 1) + "e")
  {
    hide Encode, EncodeString;
    var k, v := EncodeString(fs[i].key), Encode(fs[i].value);
    AtSplit3(s, pos, k + v, EncodeFields(fs, i + 1), "e");
    AtSplit(s, pos, k, v);
    assert IsDigit(s[pos]) by {
      DecodeEncodedString(fs[i].key, s, pos, 0);
    }
  }

  lemma NextField(key: string, s: string, pos: nat, budget: nat, max: nat, acc: seq<Field>)
    requires At(s, pos, EncodeString(key)) && IsDigit(s[pos]) && budget > 0
    ensures pos + |EncodeString(key)| <= |s|
    ensures budget == 1 ==> DecodeFields(s, pos, budget, max, acc).Rejected?
    ensures budget > 1 && |key| > max ==> DecodeFields(s, pos, budget, max, acc).Overflown?
    ensures var r := Decode(s, pos + |EncodeString(key)|, budget - 1, max);
      budget > 1 && |key| <= max ==>
      DecodeFields(s, pos, budget, max, acc) ==
      if !r.Accepted? then r
      else if r.pos == |s| then Rejected(r.pos)
      else DecodeFields(s, r.pos, budget, max, Put(acc, key, r.e))
  {
    assert pos + |EncodeString(key)| <= |s| by {
      AtSlice(s, pos, EncodeString(key));
    }
    var k := Decode(s, pos, budget - 1, max);
    assert budget > 1 ==>
      if |key| <= max then k == Accepted(Str(key), pos + |EncodeString(key)|) else k.Overflown?
    by {
      DecodeEncodedString(key, s, pos, max);
    }
    assert budget == 1 ==> k == Rejected(pos);
    hide Decode, At, EncodeString;
  }

  // ---------- decoding what was encoded ----------

  /** Decoding the text of a regular entry that fits the limits gives the entry back,
      wherever the text stands and whatever follows it. */
  lemma {:induction false} DecodeEncoded(e: Entry, s: string, pos: nat, budget: nat, max: nat)
    requires Regular(e) && At(s, pos, Encode(e)) && Fits(e, budget, max)
    ensures Decode(s, pos, budget, max) == Accepted(Settled(e), pos + |Encode(e)|)
    decreases e, 0
  {
    hide DecodeInt, DecodeString, EncodeString, IntToStr;
    match e {
      case List(es) =>
        OpenBracket('l', EncodeItems(es, 0), s, pos);
        DecodeEncodedItems(es, 0, s, pos + 1, budget, max);
      case Dict(fs) =>
        OpenBracket('d', EncodeFields(fs, 0), s, pos);
        DecodeEncodedFields(fs, 0, s, pos + 1, budget, max);
      case _ => DecodeEncodedLeaf(e, s, pos, budget, max);
    }
  }

  lemma {:induction false} DecodeEncodedItems(es: seq<Entry>, i: nat, s: string, pos: nat, budget: nat, max: nat)
    requires i <= |es| && Regular(List(es)) && ItemLevels(es, i) < budget && LongestItem(es, i) <= max
    requires At(s, pos, EncodeItems(es, i) + "e")
    ensures DecodeItems(s, pos, budget, max, Settled(List(es)).items[..i])
         == Accepted(Settled(List(es)), pos + |EncodeItems(es, i)| + 1)
    decreases es, |es| - i
  {
    hide Decode, Encode;
    var items := Settled(List(es)).items;
    if i == |es| {
      assert items[..i] == items;
    } else {
      FirstItem(es, i, s, pos);
      DecodeEncoded(es[i], s, pos, budget - 1, max);
      assert items[..i] + [items[i]] == items[..i + 1];
      NextItem(s, pos, budget, max, items[..i]);
      DecodeEncodedItems(es, i + 1, s, pos + |Encode(es[i])|, budget, max);
    }
  }

  lemma {:induction false} DecodeEncodedFields(fs: seq<Field>, i: nat, s: string, pos: nat, budget: nat, max: nat)
    requires i <= |fs| && Regular(Dict(fs)) && FieldLevels(fs, i) < budget && LongestField(fs, i) <= max
    requires At(s, pos, EncodeFields(fs, i) + "e")
    ensures DecodeFields(s, pos, budget, max, Settled(Dict(fs)).fields[..i])
         == Accepted(Settled(Dict(fs)), pos + |EncodeFields(fs, i)| + 1)
    decreases fs, |fs| - i
  {
    hide Decode, Encode, EncodeString, Put, Less, Ascending;
    var fields := Settled(Dict(fs)).fields;
    if i == |fs| {
      assert fields[..i] == fields;
    } else {
      FirstField(fs, i, s, pos);
      var value := pos + |EncodeString(fs[i].key)|;
      DecodeEncoded(fs[i].value, s, value, budget - 1, max);
      PutNext(fs, i);
      NextField(fs[i].key, s, pos, budget, max, fields[..i]);
      DecodeEncodedFields(fs, i + 1, s, value + |Encode(fs[i].value)|, budget, max);
    }
  }

  /** What decoding an entry beyond the limits comes to: not an entry; an error if only the
      nesting is too deep, an overflow if only a string is too long. */
  predicate Refused(r: Outcome, tooDeep: bool, tooLong: bool) {
    !r.Accepted? && (!tooLong ==> r.Rejected?) && (!tooDeep ==> r.Overflown?)
  }

  lemma {:induction false} RefuseUnfit(e: Entry, s: string, pos: nat, budget: nat, max: nat)
    requires Regular(e) && At(s, pos, Encode(e)) && !Fits(e, budget, max)
    ensures Refused(Decode(s, pos, budget, max), Levels(e) > budget, Longest(e) > max)
    decreases e, 0
  {
    hide DecodeInt, DecodeString, EncodeString, IntToStr;
    if budget > 0 {
      match e {
        case List(es) =>
          OpenBracket('l', EncodeItems(es, 0), s, pos);
          RefuseUnfitItems(es, 0, s, pos + 1, budget, max);
        case Dict(fs) =>
          OpenBracket('d', EncodeFields(fs, 0), s, pos);
          RefuseUnfitFields(fs, 0, s, pos + 1, budget, max);
        case _ => DecodeEncodedLeaf(e, s, pos, budget, max);
      }
    }
  }

  lemma {:induction false} RefuseUnfitItems(es: seq<Entry>, i: nat, s: string, pos: nat, budget: nat, max: nat)
    requires i <= |es| && Regular(List(es)) && budget > 0
    requires ItemLevels(es, i) >= budget || LongestItem(es, i) > max
    requires At(s, pos, EncodeItems(es, i) + "e")
    ensures Refused(DecodeItems(s, pos, budget, max, Settled(List(es)).items[..i]),
                    ItemLevels(es, i) >= budget, LongestItem(es, i) > max)
    decreases es, |es| - i
  {
    hide Decode, Encode;
    var items := Settled(List(es)).items;
    FirstItem(es, i, s, pos);
    NextItem(s, pos, budget, max, items[..i]);
    if Fits(es[i], budget - 1, max) {
      DecodeEncoded(es[i], s, pos, budget - 1, max);
      assert items[..i] + [items[i]] == items[..i + 1];
      RefuseUnfitItems(es, i + 1, s, pos + |Encode(es[i])|, budget, max);
    } else {
      RefuseUnfit(es[i], s, pos, budget - 1, max);
    }
  }

  lemma {:induction false} RefuseUnfitFields(fs: seq<Field>, i: nat, s: string, pos: nat, budget: nat, max: nat)
    requires i <= |fs| && Regular(Dict(fs)) && budget > 0
    requires FieldLevels(fs, i) >= budget || LongestField(fs, i) > max
    requires At(s, pos, EncodeFields(fs, i) + "e")
    ensures Refused(DecodeFields(s, pos, budget, max, Settled(Dict(fs)).fields[..i]),
                    FieldLevels(fs, i) >= budget, LongestField(fs, i) > max)
    decreases fs, |fs| - i
  {
    hide Decode, Encode, EncodeString, Put, Less, Ascending;
    FirstField(fs, i, s, pos);
    var value := pos + |EncodeString(fs[i].key)|;
    NextField(fs[i].key, s, pos, budget, max, Settled(Dict(fs)).fields[..i]);
    if |fs[i].key| <= max && budget > 1 {
      if Fits(fs[i].value, budget - 1, max) {
        DecodeEncoded(fs[i].value, s, value, budget - 1, max);
        PutNext(fs, i);
        RefuseUnfitFields(fs, i + 1, s, value + |Encode(fs[i].value)|, budget, max);
      } else {
        RefuseUnfit(fs[i].value, s, value, budget - 1, max);
      }
    }
  }

  /** Filling a map in key order puts each new field last. */
  lemma PutNext(fs: seq<Field>, i: nat)
    requires Ascending(fs) && i < |fs|
    ensures var fields := Settled(Dict(fs)).fields;
      Put(fields[..i], fs[i].key, Settled(fs[i].value)) == fields[..i + 1]
  {
    var fields := Settled(Dict(fs)).fields;
    PutLast(fields[..i], fields[i]);
    assert fields[..i] + [fields[i]] == fields[..i + 1];
  }

  lemma {:induction false} PutLast(fs: seq<Field>, f: Field)
    requires forall i | 0 <= i < |fs| :: Less(fs[i].key, f.key)
    ensures Put(fs, f.key, f.value) == fs + [f]
  {
    if fs != [] {
      LessIrreflexive(f.key);
      LessAsymmetric(fs[0].key, f.key);
      PutLast(fs[1..], f);
    }
  }

  lemma LessIrreflexive(a: string)
    ensures !Less(a, a)
  {
  }

  lemma LessAsymmetric(a: string, b: string)
    requires Less(a, b)
    ensures !Less(b, a)
  {
  }

  // ---------- the order of keys ----------

  /** Raw strings in ascending order: a proper prefix comes first, and else the string with the
      smaller character code where the two first differ. */
  ghost predicate Before(a: string, b: string) {
    a < b || exists i: nat :: DifferAt(a, b, i) && a[i] as int < b[i] as int
  }

  predicate DifferAt(a: string, b: string, i: nat) {
    i < |a| && i < |b| && a[i] != b[i] && forall j | 0 <= j < i :: a[j] == b[j]
  }

  lemma {:induction false} LessExact(a: string, b: string)
    ensures Less(a, b) <==> Before(a, b)
    decreases |a|
  {
    if a == "" {
      assert b != "" ==> a < b;
    } else if b == "" {
      assert forall i: nat :: !DifferAt(a, b, i);
    } else if a[0] != b[0] {
      assert DifferAt(a, b, 0);
      assert forall i: nat :: DifferAt(a, b, i) ==> i == 0;
    } else {
      LessExact(a[1..], b[1..]);
      BeforeRest(a, b);
    }
  }

  lemma BeforeRest(a: string, b: string)
    requires a != "" && b != "" && a[0] == b[0]
    ensures Before(a, b) <==> Before(a[1..], b[1..])
  {
    var c, d := a[1..], b[1..];
    assert a == [a[0]] + c && b == [b[0]] + d;
    assert a < b <==> c < d;
    if i: nat :| DifferAt(a, b, i) && a[i] as int < b[i] as int {
      assert DifferAt(c, d, i - 1);
    }
    if i: nat :| DifferAt(c, d, i) && c[i] as int < d[i] as int {
      assert forall j | 0 <= j < i + 1 :: a[j] == if j == 0 then b[0] else d[j - 1];
      assert DifferAt(a, b, i + 1);
    }
  }

  /** All dictionaries in e, at any depth, have their keys in ascending order. */
  ghost predicate KeysAscend(e: Entry) {
    match e
    case List(es) => forall i | 0 <= i < |es| :: KeysAscend(es[i])
    case Dict(fs) =>
      && (forall i, j | 0 <= i < j < |fs| :: Before(fs[i].key, fs[j].key))
      && forall i | 0 <= i < |fs| :: KeysAscend(fs[i].value)
    case _ => true
  }

  lemma {:induction false} RegularKeysAscend(e: Entry)
    requires Regular(e)
    ensures KeysAscend(e)
  {
    hide Before;
    match e {
      case List(es) =>
        forall i | 0 <= i < |es| ensures KeysAscend(es[i]) { RegularKeysAscend(es[i]); }
      case Dict(fs) =>
        forall i | 0 <= i < |fs| ensures KeysAscend(fs[i].value) { RegularKeysAscend(fs[i].value); }
        forall i, j | 0 <= i < j < |fs| ensures Before(fs[i].key, fs[j].key) { LessExact(fs[i].key, fs[j].key); }
      case _ =>
    }
  }

  // ---------- the map ----------

  lemma {:induction false} LessTotal(a: string, b: string)
    ensures a == b || Less(a, b) || Less(b, a)
    decreases |a|
  {
    if a != "" && b != "" && a[0] == b[0] {
      LessTotal(a[1..], b[1..]);
      assert a == [a[0]] + a[1..] && b == [b[0]] + b[1..];
    }
  }

  lemma {:induction false} LessTransitive(a: string, b: string, c: string)
    requires Less(a, b) && Less(b, c)
    ensures Less(a, c)
    decreases |a|
  {
    if a != "" && a[0] == b[0] == c[0] {
      LessTransitive(a[1..], b[1..], c[1..]);
    }
  }

  /** Put is map update: it replaces or adds the field for key and keeps every other one,
      and it leaves the fields in key order. */
  lemma {:induction false} PutUpdates(fs: seq<Field>, key: string, value: Entry)
    requires Ascending(fs)
    ensures Ascending(Put(fs, key, value))
    ensures forall f :: f in Put(fs, key, value) <==> f == Field(key, value) || (f in fs && f.key != key)
  {
    hide Less;
    var r := Put(fs, key, value);
    if fs == [] {
    } else {
      var rest := fs[1..];
      assert fs == [fs[0]] + rest;
      forall g | g in rest
        ensures Less(fs[0].key, g.key) && g.key != fs[0].key
      {
        LessIrreflexive(fs[0].key);
      }
      if Less(key, fs[0].key) {
        forall g | g in fs
          ensures Less(key, g.key) && g.key != key
        {
          if g != fs[0] { LessTransitive(key, fs[0].key, g.key); }
          LessIrreflexive(key);
        }
        assert r == [Field(key, value)] + fs;
      } else if fs[0].key == key {
        assert r == [Field(key, value)] + rest;
      } else {
        LessTotal(key, fs[0].key);
        PutUpdates(rest, key, value);
        assert forall g | g in Put(rest, key, value) :: Less(fs[0].key, g.key);
        assert r == [fs[0]] + Put(rest, key, value);
      }
    }
  }

  // ---------- what the decoder accepts ----------

  lemma {:induction false} ItemLevelsBound(es: seq<Entry>, i: nat, n: nat)
    requires i <= |es|
    ensures ItemLevels(es, i) <= n <==> forall j | i <= j < |es| :: Levels(es[j]) <= n
    decreases |es| - i
  {
    if i < |es| { ItemLevelsBound(es, i + 1, n); }
  }

  lemma {:induction false} FieldLevelsBound(fs: seq<Field>, i: nat, n: nat)
    requires i <= |fs|
    ensures FieldLevels(fs, i) <= n <==> forall j | i <= j < |fs| :: Levels(fs[j].value) <= n
    decreases |fs| - i
  {
    if i < |fs| { FieldLevelsBound(fs, i + 1, n); }
  }

  lemma {:induction false} LongestItemBound(es: seq<Entry>, i: nat, n: nat)
    requires i <= |es|
    ensures LongestItem(es, i) <= n <==> forall j | i <= j < |es| :: Longest(es[j]) <= n
    decreases |es| - i
  {
    if i < |es| { LongestItemBound(es, i + 1, n); }
  }

  lemma {:induction false} LongestFieldBound(fs: seq<Field>, i: nat, n: nat)
    requires i <= |fs|
    ensures LongestField(fs, i) <= n <==> forall j | i <= j < |fs| :: |fs[j].key| <= n && Longest(fs[j].value) <= n
    decreases |fs| - i
  {
    if i < |fs| { LongestFieldBound(fs, i + 1, n); }
  }

  predicate PlainWithin(e: Entry, budget: nat, max: nat) {
    Plain(e) && Fits(e, budget, max)
  }

  predicate PlainField(f: Field, budget: nat, max: nat) {
    |f.key| <= max && PlainWithin(f.value, budget, max)
  }

  lemma PlainList(es: seq<Entry>, budget: nat, max: nat)
    requires budget > 0 && forall e <- es :: PlainWithin(e, budget - 1, max)
    ensures PlainWithin(List(es), budget, max)
  {
    assert forall i | 0 <= i < |es| :: es[i] in es;
    ItemLevelsBound(es, 0, budget - 1);
    LongestItemBound(es, 0, max);
    assert Settled(List(es)).items == es;
  }

  lemma PlainDict(fs: seq<Field>, budget: nat, max: nat)
    requires budget > 0 && Ascending(fs) && forall f <- fs :: PlainField(f, budget - 1, max)
    ensures PlainWithin(Dict(fs), budget, max)
  {
    FieldLevelsBound(fs, 0, budget - 1);
    LongestFieldBound(fs, 0, max);
    assert forall i | 0 <= i < |fs| :: fs[i] in fs;
    assert forall i | 0 <= i < |fs| :: PlainField(fs[i], budget - 1, max);
    assert Settled(Dict(fs)).fields == fs;
  }

  /** Whatever the input, in whatever key order and with whatever repeated keys, an accepted
      entry is plain and within the nesting budget. */
  lemma {:induction false} AcceptedIsPlain(s: string, pos: nat, budget: nat, max: nat)
    requires pos <= |s| && Decode(s, pos, budget, max).Accepted?
    ensures PlainWithin(Decode(s, pos, budget, max).e, budget, max)
    decreases |s| - pos, 0
  {
    hide PlainWithin;
    if s[pos] == 'l' {
      AcceptedItemsPlain(s, pos + 1, budget, max, []);
    } else if s[pos] == 'd' {
      AcceptedFieldsPlain(s, pos + 1, budget, max, []);
    } else {
      PlainLeaf(Decode(s, pos, budget, max).e, budget, max);
    }
  }

  lemma PlainLeaf(e: Entry, budget: nat, max: nat)
    requires (e.Int? || (e.Str? && |e.text| <= max)) && budget > 0
    ensures PlainWithin(e, budget, max)
  {
  }

  lemma ShortKey(k: Entry, v: Entry, budget: nat, max: nat)
    requires k.Str? && PlainWithin(k, budget, max) && PlainWithin(v, budget, max)
    ensures PlainField(Field(k.text, v), budget, max)
  {
  }

  lemma {:induction false} AcceptedItemsPlain(s: string, pos: nat, budget: nat, max: nat, acc: seq<Entry>)
    requires pos <= |s| && budget > 0
    requires forall e <- acc :: PlainWithin(e, budget - 1, max)
    requires DecodeItems(s, pos, budget, max, acc).Accepted?
    ensures PlainWithin(DecodeItems(s, pos, budget, max, acc).e, budget, max)
    decreases |s| - pos, 1
  {
    hide PlainWithin, DecodeInt, DecodeString;
    if pos < |s| && s[pos] == 'e' {
      PlainList(acc, budget, max);
    } else {
      var r := Decode(s, pos, budget - 1, max);
      AcceptedIsPlain(s, pos, budget - 1, max);
      AcceptedItemsPlain(s, r.pos, budget, max, acc + [r.e]);
    }
  }

  lemma {:induction false} AcceptedFieldsPlain(s: string, pos: nat, budget: nat, max: nat, acc: seq<Field>)
    requires pos <= |s| && budget > 0
    requires Ascending(acc) && forall f <- acc :: PlainField(f, budget - 1, max)
    requires DecodeFields(s, pos, budget, max, acc).Accepted?
    ensures PlainWithin(DecodeFields(s, pos, budget, max, acc).e, budget, max)
    decreases |s| - pos, 1
  {
    hide PlainWithin, DecodeInt, DecodeString, Ascending;
    var k := Decode(s, pos, budget - 1, max);
    if (pos < |s| && s[pos] == 'e') || !k.e.Str? {
      PlainDict(acc, budget, max);
    } else {
      var v := Decode(s, k.pos, budget - 1, max);
      AcceptedIsPlain(s, pos, budget - 1, max);
      AcceptedIsPlain(s, k.pos, budget - 1, max);
      ShortKey(k.e, v.e, budget - 1, max);
      PutUpdates(acc, k.e.text, v.e);
      AcceptedFieldsPlain(s, v.pos, budget, max, Put(acc, k.e.text, v.e));
    }
  }

  // ---------- main results ----------

  lemma DecodeFront(e: Entry, rest: string, budget: nat, max: nat)
    requires Regular(e)
    ensures var r := Decode(Encode(e) + rest, 0, budget, max);
      if Fits(e, budget, max) then r == Accepted(Settled(e), |Encode(e)|)
      else Refused(r, Levels(e) > budget, Longest(e) > max)
  {
    var s := Encode(e) + rest;
    assert s[0..0 + |Encode(e)|] == Encode(e);
    AtSlice(s, 0, Encode(e));
    if Fits(e, budget, max) {
      DecodeEncoded(e, s, 0, budget, max);
    } else {
      RefuseUnfit(e, s, 0, budget, max);
    }
  }

  /** Encoding then decoding gives the entry back, with undefined nodes settled, and stops
      right behind its text, if and only if it has at most 100 node levels and no string
      longer than an int can say. Beyond the levels it is rejected; beyond the length atoi
      overflows. */
  lemma RoundTrip(e: Entry, rest: string)
    requires Regular(e)
    ensures var r := Decode(Encode(e) + rest, 0, MAX_DEPTH, INT32_MAX);
      && (r.Accepted? <==> Levels(e) <= 100 && Longest(e) <= 2147483647)
      && (r.Accepted? ==> r == Accepted(Settled(e), |Encode(e)|))
      && (Longest(e) <= 2147483647 ==> !r.Overflown?)
      && (Levels(e) <= 100 ==> !r.Rejected?)
  {
    DecodeFront(e, rest, MAX_DEPTH, INT32_MAX);
  }

  /** No encoding of a plain entry, at any depth and length, is a prefix of the encoding of
      another. */
  lemma UniquelyDecodable(a: Entry, b: Entry)
    requires Plain(a) && Plain(b) && Encode(a) <= Encode(b)
    ensures a == b
  {
    var budget, max := Max(Levels(a), Levels(b)), Max(Longest(a), Longest(b));
    DecodeFront(a, Encode(b)[|Encode(a)|..], budget, max);
    DecodeFront(b, "", budget, max);
    assert Encode(a) + Encode(b)[|Encode(a)|..] == Encode(b) == Encode(b) + "";
  }

  /** In every dictionary of an accepted entry the keys ascend as raw strings, in whatever
      order the text had them. */
  lemma AcceptedKeysAscend(s: string, pos: nat)
    requires pos <= |s| && Decode(s, pos, MAX_DEPTH, INT32_MAX).Accepted?
    ensures KeysAscend(Decode(s, pos, MAX_DEPTH, INT32_MAX).e)
  {
    AcceptedIsPlain(s, pos, MAX_DEPTH, INT32_MAX);
    hide Decode, KeysAscend;
    RegularKeysAscend(Decode(s, pos, MAX_DEPTH, INT32_MAX).e);
  }

  // ---------- preformatted text ----------

  /** a is b with the text of some nodes in place of the nodes. */
  predicate StandsFor(a: Entry, b: Entry) {
    match a
    case Preformatted(raw) => raw == Encode(b)
    case List(es) => b.List? && |es| == |b.items| && forall i | 0 <= i < |es| :: StandsFor(es[i], b.items[i])
    case Dict(fs) =>
      && b.Dict? && |fs| == |b.fields|
      && forall i | 0 <= i < |fs| :: fs[i].key == b.fields[i].key && StandsFor(fs[i].value, b.fields[i].value)
    case _ => a == b
  }

  lemma {:induction false} StandsForSameText(a: Entry, b: Entry)
    requires StandsFor(a, b)
    ensures Encode(a) == Encode(b)
    decreases a, 0
  {
    hide EncodeString, IntToStr;
    match a {
      case List(es) => SameItemTexts(es, b.items, 0);
      case Dict(fs) => SameFieldTexts(fs, b.fields, 0);
      case _ =>
    }
  }

  lemma {:induction false} SameItemTexts(es: seq<Entry>, gs: seq<Entry>, i: nat)
    requires i <= |es| == |gs| && forall j | 0 <= j < |es| :: StandsFor(es[j], gs[j])
    ensures EncodeItems(es, i) == EncodeItems(gs, i)
    decreases es, |es| - i
  {
    hide Encode;
    if i < |es| {
      StandsForSameText(es[i], gs[i]);
      SameItemTexts(es, gs, i + 1);
    }
  }

  lemma {:induction false} SameFieldTexts(fs: seq<Field>, gs: seq<Field>, i: nat)
    requires i <= |fs| == |gs|
    requires forall j | 0 <= j < |fs| :: fs[j].key == gs[j].key && StandsFor(fs[j].value, gs[j].value)
    ensures EncodeFields(fs, i) == EncodeFields(gs, i)
    decreases fs, |fs| - i
  {
    hide Encode, EncodeString;
    if i < |fs| {
      StandsForSameText(fs[i].value, gs[i].value);
      SameFieldTexts(fs, gs, i + 1);
    }
  }

  /** Text that was encoded before may stand for its node anywhere: what is written is the
      same, and decoding it gives the entry without preformatted text. */
  lemma PreformattedRoundTrip(a: Entry, b: Entry, rest: string)
    requires StandsFor(a, b) && Regular(b) && Fits(b, MAX_DEPTH, INT32_MAX)
    ensures Encode(a) == Encode(b)
    ensures Decode(Encode(a) + rest, 0, MAX_DEPTH, INT32_MAX) == Accepted(Settled(b), |Encode(a)|)
  {
    StandsForSameText(a, b);
    hide Encode, Decode;
    DecodeFront(b, rest, MAX_DEPTH, INT32_MAX);
  }

  /** Decoding normalises: re-encoding what was accepted and decoding that, whatever follows
      it, gives the same entry. */
  lemma Normalises(s: string, pos: nat, rest: string)
    requires pos <= |s| && Decode(s, pos, MAX_DEPTH, INT32_MAX).Accepted?
    ensures var e := Decode(s, pos, MAX_DEPTH, INT32_MAX).e;
      Plain(e) && Decode(Encode(e) + rest, 0, MAX_DEPTH, INT32_MAX) == Accepted(e, |Encode(e)|)
  {
    AcceptedIsPlain(s, pos, MAX_DEPTH, INT32_MAX);
    RoundTrip(Decode(s, pos, MAX_DEPTH, INT32_MAX).e, rest);
  }
}
