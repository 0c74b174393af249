/**
 Strict bencoding: the one text that bencode writes for an entry. The decoder accepts more, and
 re-encoding what it accepted gives back the text read exactly when that text was strict.
 */
module BencodeStrict {
  import opened Decimal
  import opened Wrappers
  import opened Bencode
  import opened BencodeProofs

  // ---------- strict numbers ----------

  /** Decimal digits without a leading zero. */
  predicate StrictDigits(t: string) {
    t != "" && (forall c <- t :: IsDigit(c)) && (t[0] == '0' ==> |t| == 1)
  }

  /** A decimal int64 without a leading zero, a plus sign or a negative zero. */
  predicate StrictNumber(t: string) {
    if t != "" && t[0] == '-' then StrictDigits(t[1..]) && 0 < Scan(t[1..], 0) <= -INT64_MIN
    else StrictDigits(t) && Scan(t, 0) <= INT64_MAX
  }

  lemma {:induction false} ScanSnoc(t: string, c: char, acc: nat)
    requires IsDigit(c) && forall d <- t :: IsDigit(d)
    ensures Scan(t + [c], acc) == Scan(t, acc) * 10 + DigitValue(c)
  {
    if t == "" {
      assert (t + [c])[1..] == "";
    } else {
      assert (t + [c])[1..] == t[1..] + [c];
      ScanSnoc(t[1..], c, acc * 10 + DigitValue(t[0]));
    }
  }

  lemma {:induction false} DigitsOfScan(t: string)
    requires StrictDigits(t)
    ensures Digits(Scan(t, 0)) == t
    ensures Scan(t, 0) == 0 <==> t == "0"
    decreases |t|
  {
    var front, last := t[..|t| - 1], t[|t| - 1];
    assert t == front + [last] && last in t;
    ScanSnoc(front, last, 0);
    if front != "" {
      assert front[0] == t[0];
      DigitsOfScan(front);
    } else {
      assert Scan("", 0) == 0;
    }
  }

  lemma {:induction false} DigitsStrict(n: nat)
    ensures StrictDigits(Digits(n)) && (Digits(n)[0] == '0' <==> n == 0) && Scan(Digits(n), 0) == n
  {
    assert Digits(n) + "" == Digits(n);
    ScanDigits(n, "");
    if n >= 10 { DigitsStrict(n / 10); }
  }

  lemma StrictNumberReads(t: string)
    requires StrictNumber(t)
    ensures Strtoll(t).Number? && IntToStr(Strtoll(t).value) == t
  {
    var u := if t[0] == '-' then t[1..] else t;
    assert u[0] in u;
    assert SkipSpace(t) == t;
    DigitsOfScan(u);
    hide Scan, Digits, SkipSpace;
    assert t[0] == '-' ==> t == "-" + u;
  }

  lemma WrittenStrict(i: Int64)
    ensures StrictNumber(IntToStr(i))
  {
    var n: nat := if i < 0 then -(i as int) else i;
    DigitsStrict(n);
    hide Scan, Digits;
    assert i < 0 ==> IntToStr(i)[1..] == Digits(n);
  }

  /** A number's text is the one that the writer prints exactly when it is strict. */
  lemma StrictNumberExact(t: string)
    ensures StrictNumber(t) <==> Strtoll(t).Number? && IntToStr(Strtoll(t).value) == t
  {
    hide StrictNumber, Strtoll, IntToStr;
    if StrictNumber(t) {
      StrictNumberReads(t);
    } else if Strtoll(t).Number? {
      WrittenStrict(Strtoll(t).value);
    }
  }

  // ---------- strict texts ----------

  /** Where the strict text of a node that starts at pos ends, if there is one within the
      decoder's limits. */
  function Strict(s: string, pos: nat, budget: nat, max: nat): (r: Option<nat>)
    requires pos <= |s|
    ensures r.Some? ==> pos < r.value <= |s|
    decreases |s| - pos, 0
  {
    if budget == 0 || pos == |s| then None
    else if s[pos] == 'i' then StrictInt(s, pos + 1)
    else if s[pos] == 'l' then StrictItems(s, pos + 1, budget, max)
    else if s[pos] == 'd' then StrictFields(s, pos + 1, budget, max, None)
    else StrictString(s, pos, max)
  }

  function StrictInt(s: string, pos: nat): (r: Option<nat>)
    requires pos <= |s|
    ensures r.Some? ==> pos < r.value <= |s|
  {
    var stop := Until(s, pos, 'e');
    if stop < |s| && StrictNumber(s[pos..stop]) then Some(stop + 1) else None
  }

  /** The length of a string, written without a leading zero. */
  function StrictLength(t: string, max: nat): Option<nat> {
    if StrictDigits(t) && Scan(t, 0) <= max then Some(Scan(t, 0)) else None
  }

  function StrictString(s: string, pos: nat, max: nat): (r: Option<nat>)
    requires pos <= |s|
    ensures r.Some? ==> pos < r.value <= |s|
  {
    var stop := Until(s, pos, ':');
    if stop == |s| then None
    else match StrictLength(s[pos..stop], max)
      case None => None
      case Some(len) => if stop + 1 + len <= |s| then Some(stop + 1 + len) else None
  }

  function StrictItems(s: string, pos: nat, budget: nat, max: nat): (r: Option<nat>)
    requires pos <= |s| && budget > 0
    ensures r.Some? ==> pos < r.value <= |s|
    decreases |s| - pos, 1
  {
    if pos < |s| && s[pos] == 'e' then Some(pos + 1)
    else match Strict(s, pos, budget - 1, max)
      case None => None
      case Some(p) => StrictItems(s, p, budget, max)
  }

  /** Every key is a string, and comes after the one before it. */
  function StrictFields(s: string, pos: nat, budget: nat, max: nat, last: Option<string>): (r: Option<nat>)
    requires pos <= |s| && budget > 0
    ensures r.Some? ==> pos < r.value <= |s|
    decreases |s| - pos, 1
  {
    if pos < |s| && s[pos] == 'e' then Some(pos + 1)
    else match StrictString(s, pos, max)
      case None => None
      case Some(p) =>
        var key := s[Until(s, pos, ':') + 1..p];
        if last.Some? && !Less(last.value, key) then None
        else (match Strict(s, p, budget - 1, max)
              case None => None
              case Some(q) => StrictFields(s, q, budget, max, Some(key)))
  }

  // ---------- strict texts decode to what they encode ----------

  /** The decoder accepts the text up to end, and that is the text of what it read. */
  predicate Exact(s: string, pos: nat, r: Outcome, end: nat)
    requires pos <= end <= |s|
  {
    r.Accepted? && r.pos == end && Encode(r.e) == s[pos..end]
  }

  lemma IntExact(s: string, pos: nat)
    requires pos < |s| && s[pos] == 'i' && StrictInt(s, pos + 1).Some?
    ensures Exact(s, pos, DecodeInt(s, pos + 1), StrictInt(s, pos + 1).value)
  {
    hide StrictNumber, Strtoll, IntToStr;
    var stop := Until(s, pos + 1, 'e');
    StrictNumberReads(s[pos + 1..stop]);
    assert s[pos..stop + 1] == "i" + s[pos + 1..stop] + "e";
  }

  lemma LengthReads(t: string, max: nat)
    requires StrictLength(t, max).Some?
    ensures t != "" && IsDigit(t[0]) && Atoi(t, max) == Value(StrictLength(t, max).value)
  {
    assert t[0] in t;
  }

  lemma LengthEncodes(t: string, u: string, max: nat)
    requires StrictLength(t, max) == Some(|u|)
    ensures EncodeString(u) == t + ":" + u
  {
    DigitsOfScan(t);
  }

  lemma StringParts(s: string, pos: nat, max: nat)
    requires pos <= |s| && StrictString(s, pos, max).Some?
    ensures var end, stop := StrictString(s, pos, max).value, Until(s, pos, ':');
      stop < end && StrictLength(s[pos..stop], max) == Some(end - stop - 1)
  {
    hide StrictLength, Until;
  }

  lemma StringReads(s: string, pos: nat, max: nat)
    requires pos <= |s| && StrictString(s, pos, max).Some?
    ensures pos < |s| && IsDigit(s[pos])
    ensures var end, stop := StrictString(s, pos, max).value, Until(s, pos, ':');
      && stop < end && StrictLength(s[pos..stop], max) == Some(end - stop - 1)
      && DecodeString(s, pos, max) == Accepted(Str(s[stop + 1..end]), end)
  {
    hide StrictLength, StrictString, DecodeString, Atoi, IsDigit, Until;
    StringParts(s, pos, max);
    var end, stop := StrictString(s, pos, max).value, Until(s, pos, ':');
    LengthReads(s[pos..stop], max);
    DecodeStringAt(s, pos, stop, end - stop - 1, max);
  }

  lemma StringExact(s: string, pos: nat, max: nat)
    requires pos <= |s| && StrictString(s, pos, max).Some?
    ensures pos < |s| && IsDigit(s[pos])
    ensures var end := StrictString(s, pos, max).value;
      && Exact(s, pos, DecodeString(s, pos, max), end)
      && DecodeString(s, pos, max).e == Str(s[Until(s, pos, ':') + 1..end])
      && EncodeString(DecodeString(s, pos, max).e.text) == s[pos..end]
  {
    hide DecodeString, StrictString, StrictLength, EncodeString, Until;
    StringReads(s, pos, max);
    var end, stop := StrictString(s, pos, max).value, Until(s, pos, ':');
    LengthEncodes(s[pos..stop], s[stop + 1..end], max);
    AroundColon(s, pos, stop, end);
  }

  lemma AroundColon(s: string, pos: nat, stop: nat, end: nat)
    requires pos <= stop < end <= |s| && s[stop] == ':'
    ensures s[pos..end] == s[pos..stop] + ":" + s[stop + 1..end]
  {
  }

  lemma {:induction false} StrictExact(s: string, pos: nat, budget: nat, max: nat)
    requires pos <= |s| && Strict(s, pos, budget, max).Some?
    ensures Exact(s, pos, Decode(s, pos, budget, max), Strict(s, pos, budget, max).value)
    decreases |s| - pos, 0
  {
    hide StrictInt, StrictString, DecodeInt, DecodeString, IntToStr, EncodeString;
    var end := Strict(s, pos, budget, max).value;
    if s[pos] == 'i' {
      IntExact(s, pos);
    } else if s[pos] == 'l' {
      StrictItemsExact(s, pos + 1, budget, max, []);
      assert s[pos..end] == "l" + s[pos + 1..end];
    } else if s[pos] == 'd' {
      StrictFieldsExact(s, pos + 1, budget, max, [], None);
      assert s[pos..end] == "d" + s[pos + 1..end];
    } else {
      StringExact(s, pos, max);
    }
  }

  lemma {:induction false} StrictItemsExact(s: string, pos: nat, budget: nat, max: nat, acc: seq<Entry>)
    requires pos <= |s| && budget > 0 && StrictItems(s, pos, budget, max).Some?
    ensures var r, end := DecodeItems(s, pos, budget, max, acc), StrictItems(s, pos, budget, max).value;
      && r.Accepted? && r.pos == end && r.e.List? && acc <= r.e.items
      && EncodeItems(r.e.items, |acc|) + "e" == s[pos..end]
    decreases |s| - pos, 1
  {
    hide Decode, Encode, Strict;
    var end := StrictItems(s, pos, budget, max).value;
    if pos < |s| && s[pos] == 'e' {
      assert s[pos..end] == "e";
    } else {
      StrictExact(s, pos, budget - 1, max);
      var r := Decode(s, pos, budget - 1, max);
      assert r.pos < |s| by { StrictEnds(s, budget, max); }
      StrictItemsExact(s, r.pos, budget, max, acc + [r.e]);
      assert s[pos..end] == s[pos..r.pos] + s[r.pos..end];
    }
  }

  lemma StrictEnds(s: string, budget: nat, max: nat)
    ensures Strict(s, |s|, budget, max) == None
    ensures budget > 0 ==> StrictItems(s, |s|, budget, max) == None
    ensures forall last | budget > 0 :: StrictFields(s, |s|, budget, max, last) == None
  {
    assert s[|s|..|s|] == "";
  }

  /** All keys so far come before the last one. */
  predicate UpTo(acc: seq<Field>, last: Option<string>) {
    forall i | 0 <= i < |acc| :: last.Some? && (acc[i].key == last.value || Less(acc[i].key, last.value))
  }

  lemma NextKey(acc: seq<Field>, last: Option<string>, key: string, value: Entry)
    requires UpTo(acc, last) && (last.Some? ==> Less(last.value, key))
    ensures Put(acc, key, value) == acc + [Field(key, value)]
    ensures UpTo(acc + [Field(key, value)], Some(key))
  {
    hide Less;
    forall i | 0 <= i < |acc|
      ensures Less(acc[i].key, key)
    {
      if acc[i].key != last.value { LessTransitive(acc[i].key, last.value, key); }
    }
    PutLast(acc, Field(key, value));
  }

  /** One key and its value, for the decoder and for strict texts. */
  lemma StrictFieldsStep(s: string, pos: nat, budget: nat, max: nat, acc: seq<Field>, last: Option<string>)
    requires pos <= |s| && budget > 0 && StrictFields(s, pos, budget, max, last).Some?
    requires pos == |s| || s[pos] != 'e'
    ensures StrictString(s, pos, max).Some? && pos < |s| && IsDigit(s[pos])
    ensures var k := DecodeString(s, pos, max);
      && k.Accepted? && k.e.Str? && (last.Some? ==> Less(last.value, k.e.text))
      && EncodeString(k.e.text) == s[pos..k.pos]
      && Exact(s, k.pos, Decode(s, k.pos, budget - 1, max), Decode(s, k.pos, budget - 1, max).pos)
    ensures var k := DecodeString(s, pos, max);
      var v := Decode(s, k.pos, budget - 1, max);
      && v.pos < |s|
      && StrictFields(s, pos, budget, max, last) == StrictFields(s, v.pos, budget, max, Some(k.e.text))
      && DecodeFields(s, pos, budget, max, acc) == DecodeFields(s, v.pos, budget, max, Put(acc, k.e.text, v.e))
    decreases |s| - pos, 0
  {
    hide Decode, Encode, Strict, StrictString, DecodeString, Put, Less, Until, EncodeString;
    StringExact(s, pos, max);
    var k := DecodeString(s, pos, max);
    StrictExact(s, k.pos, budget - 1, max);
    KeyDecodes(s, pos, budget - 1, max);
    StrictEnds(s, budget, max);
  }

  lemma {:induction false} StrictFieldsExact(
    s: string, pos: nat, budget: nat, max: nat, acc: seq<Field>, last: Option<string>)
    requires pos <= |s| && budget > 0 && StrictFields(s, pos, budget, max, last).Some? && UpTo(acc, last)
    ensures var r, end := DecodeFields(s, pos, budget, max, acc), StrictFields(s, pos, budget, max, last).value;
      && r.Accepted? && r.pos == end && r.e.Dict? && acc <= r.e.fields
      && EncodeFields(r.e.fields, |acc|) + "e" == s[pos..end]
    decreases |s| - pos, 1
  {
    hide Decode, Encode, Strict, StrictString, DecodeString, Put, UpTo, Less, EncodeString;
    var end := StrictFields(s, pos, budget, max, last).value;
    if pos < |s| && s[pos] == 'e' {
      assert s[pos..end] == "e";
    } else {
      StrictFieldsStep(s, pos, budget, max, acc, last);
      hide DecodeFields, StrictFields;
      var k := DecodeString(s, pos, max);
      var v := Decode(s, k.pos, budget - 1, max);
      var field := Field(k.e.text, v.e);
      NextKey(acc, last, k.e.text, v.e);
      StrictFieldsExact(s, v.pos, budget, max, acc + [field], Some(k.e.text));
      var fields := DecodeFields(s, v.pos, budget, max, acc + [field]).e.fields;
      assert fields[|acc|] == field;
      FieldText(fields, |acc|, s, pos, k.pos, v.pos, end);
    }
  }

  lemma FieldText(fs: seq<Field>, i: nat, s: string, pos: nat, p: nat, q: nat, end: nat)
    requires i < |fs| && pos <= p <= q <= end <= |s|
    requires EncodeString(fs[i].key) == s[pos..p] && Encode(fs[i].value) == s[p..q]
    requires EncodeFields(fs, i + 1) + "e" == s[q..end]
    ensures EncodeFields(fs, i) + "e" == s[pos..end]
  {
    hide EncodeString, Encode;
    assert s[pos..end] == s[pos..p] + s[p..q] + s[q..end];
  }

  lemma KeyDecodes(s: string, pos: nat, budget: nat, max: nat)
    requires pos < |s| && IsDigit(s[pos])
    ensures budget > 0 ==> Decode(s, pos, budget, max) == DecodeString(s, pos, max)
    ensures budget == 0 ==> forall p: nat | p <= |s| :: Strict(s, p, budget, max) == None
  {
  }

  // ---------- what is encoded is strict ----------

  lemma EncodedStringStrict(t: string, s: string, pos: nat, max: nat)
    requires At(s, pos, EncodeString(t)) && |t| <= max
    ensures var end := pos + |EncodeString(t)|;
      && end <= |s| && StrictString(s, pos, max) == Some(end)
      && s[Until(s, pos, ':') + 1..end] == t
    ensures pos < |s| && IsDigit(s[pos])
  {
    hide Scan, At, Digits, StrictLength;
    var n := Digits(|t|);
    WrittenLength(|t|, max);
    AtSplit(s, pos, n + ":", t);
    UntilFinds(s, pos, n, ':');
    AtSlice(s, pos + |n| + 1, t);
    assert s[pos] == n[0];
  }

  lemma WrittenLength(n: nat, max: nat)
    requires n <= max
    ensures StrictLength(Digits(n), max) == Some(n)
  {
    DigitsStrict(n);
  }

  lemma EncodedIntStrict(i: Int64, s: string, pos: nat)
    requires At(s, pos, "i" + IntToStr(i) + "e")
    ensures pos + |IntToStr(i)| + 2 <= |s| && s[pos] == 'i'
    ensures StrictInt(s, pos + 1) == Some(pos + |IntToStr(i)| + 2)
  {
    hide StrictNumber, IntToStr;
    var t := IntToStr(i);
    WrittenStrict(i);
    OpenBracket('i', t, s, pos);
    UntilFinds(s, pos + 1, t, 'e');
  }

  lemma EncodedLeafStrict(e: Entry, s: string, pos: nat, budget: nat, max: nat)
    requires Regular(e) && !e.List? && !e.Dict? && At(s, pos, Encode(e)) && Fits(e, budget, max)
    ensures pos + |Encode(e)| <= |s| && Strict(s, pos, budget, max) == Some(pos + |Encode(e)|)
  {
    hide StrictInt, StrictString, IntToStr, EncodeString, At;
    match e {
      case Int(i) => EncodedIntStrict(i, s, pos);
      case Str(t) => EncodedStringStrict(t, s, pos, max);
      case Undefined =>
        NothingEncoded();
        EncodedStringStrict("", s, pos, max);
    }
  }

  lemma {:induction false} EncodedStrict(e: Entry, s: string, pos: nat, budget: nat, max: nat)
    requires Regular(e) && At(s, pos, Encode(e)) && Fits(e, budget, max)
    ensures pos + |Encode(e)| <= |s| && Strict(s, pos, budget, max) == Some(pos + |Encode(e)|)
    decreases e, 0
  {
    hide StrictInt, StrictString, StrictItems, StrictFields, EncodeItems, EncodeFields, EncodeString, At;
    match e {
      case List(es) =>
        OpenBracket('l', EncodeItems(es, 0), s, pos);
        EncodedItemsStrict(es, 0, s, pos + 1, budget, max);
      case Dict(fs) =>
        OpenBracket('d', EncodeFields(fs, 0), s, pos);
        EncodedFieldsStrict(fs, 0, s, pos + 1, budget, max, None);
      case _ => EncodedLeafStrict(e, s, pos, budget, max);
    }
  }

  lemma NothingEncoded()
    ensures EncodeString("") == "0:"
  {
  }

  lemma {:induction false} EncodedItemsStrict(es: seq<Entry>, i: nat, s: string, pos: nat, budget: nat, max: nat)
    requires i <= |es| && Regular(List(es)) && ItemLevels(es, i) < budget && LongestItem(es, i) <= max
    requires At(s, pos, EncodeItems(es, i) + "e")
    ensures pos + |EncodeItems(es, i)| < |s|
    ensures StrictItems(s, pos, budget, max) == Some(pos + |EncodeItems(es, i)| + 1)
    decreases es, |es| - i
  {
    hide Encode, Strict;
    if i < |es| {
      FirstItem(es, i, s, pos);
      EncodedStrict(es[i], s, pos, budget - 1, max);
      EncodedItemsStrict(es, i + 1, s, pos + |Encode(es[i])|, budget, max);
    }
  }

  lemma {:induction false} EncodedFieldsStrict(
    fs: seq<Field>, i: nat, s: string, pos: nat, budget: nat, max: nat, last: Option<string>)
    requires i <= |fs| && Regular(Dict(fs)) && FieldLevels(fs, i) < budget && LongestField(fs, i) <= max
    requires last.Some? && i < |fs| ==> Less(last.value, fs[i].key)
    requires At(s, pos, EncodeFields(fs, i) + "e")
    ensures pos + |EncodeFields(fs, i)| < |s|
    ensures StrictFields(s, pos, budget, max, last) == Some(pos + |EncodeFields(fs, i)| + 1)
    decreases fs, |fs| - i
  {
    hide Encode, EncodeString, Strict, StrictString, Less, Until;
    if i < |fs| {
      FieldFits(fs, i, budget, max);
      FirstField(fs, i, s, pos);
      hide Regular, Fits, FieldLevels, LongestField, EncodeFields, At, StrictFields;
      var key, value := fs[i].key, pos + |EncodeString(fs[i].key)|;
      EncodedStringStrict(key, s, pos, max);
      EncodedStrict(fs[i].value, s, value, budget - 1, max);
      StrictFieldsMore(s, pos, budget, max, last, key, value, value + |Encode(fs[i].value)|);
      EncodedFieldsStrict(fs, i + 1, s, value + |Encode(fs[i].value)|, budget, max, Some(key));
    }
  }

  lemma FieldFits(fs: seq<Field>, i: nat, budget: nat, max: nat)
    requires i < |fs| && Regular(Dict(fs)) && FieldLevels(fs, i) < budget && LongestField(fs, i) <= max
    ensures |fs[i].key| <= max && Regular(fs[i].value) && Fits(fs[i].value, budget - 1, max)
    ensures FieldLevels(fs, i + 1) < budget && LongestField(fs, i + 1) <= max
    ensures i + 1 < |fs| ==> Less(fs[i].key, fs[i + 1].key)
  {
    hide Less;
  }

  lemma StrictFieldsMore(
    s: string, pos: nat, budget: nat, max: nat, last: Option<string>, key: string, p: nat, q: nat)
    requires pos < |s| && IsDigit(s[pos]) && budget > 0 && StrictString(s, pos, max) == Some(p)
    requires key == s[Until(s, pos, ':') + 1..p] && (last.Some? ==> Less(last.value, key))
    requires Strict(s, p, budget - 1, max) == Some(q)
    ensures StrictFields(s, pos, budget, max, last) == StrictFields(s, q, budget, max, Some(key))
  {
    hide StrictString, Until, Less, Strict;
  }

  // ---------- main results ----------

  /** What the decoder accepted encodes to the very text it read if and only if that text is
      strict: numbers without leading zeros, plus signs, blanks or anything behind their digits,
      and dictionaries closed, with string keys in strictly ascending order. */
  lemma ReencodesExactly(s: string, pos: nat)
    requires pos <= |s| && Decode(s, pos, MAX_DEPTH, INT32_MAX).Accepted?
    ensures var r := Decode(s, pos, MAX_DEPTH, INT32_MAX);
      Encode(r.e) == s[pos..r.pos] <==> Strict(s, pos, MAX_DEPTH, INT32_MAX) == Some(r.pos)
  {
    hide Decode, Encode, Strict;
    var r := Decode(s, pos, MAX_DEPTH, INT32_MAX);
    if Encode(r.e) == s[pos..r.pos] {
      AcceptedIsPlain(s, pos, MAX_DEPTH, INT32_MAX);
      AtSlice(s, pos, Encode(r.e));
      EncodedStrict(r.e, s, pos, MAX_DEPTH, INT32_MAX);
    }
    if Strict(s, pos, MAX_DEPTH, INT32_MAX) == Some(r.pos) {
      StrictExact(s, pos, MAX_DEPTH, INT32_MAX);
    }
  }

  /** Every strict text is accepted, and it is the only text of its entry: strict texts are
      exactly the encodings of the plain entries within the limits. */
  lemma StrictTexts(s: string)
    ensures Strict(s, 0, MAX_DEPTH, INT32_MAX) == Some(|s|) <==>
      exists e :: PlainWithin(e, MAX_DEPTH, INT32_MAX) && Encode(e) == s
  {
    hide Decode, Encode, Strict, Fits, Plain;
    if Strict(s, 0, MAX_DEPTH, INT32_MAX) == Some(|s|) {
      StrictExact(s, 0, MAX_DEPTH, INT32_MAX);
      AcceptedIsPlain(s, 0, MAX_DEPTH, INT32_MAX);
      assert s[0..|s|] == s;
    }
    if e :| PlainWithin(e, MAX_DEPTH, INT32_MAX) && Encode(e) == s {
      PlainParts(e);
      assert s[0..0 + |s|] == s;
      AtSlice(s, 0, s);
      EncodedStrict(e, s, 0, MAX_DEPTH, INT32_MAX);
    }
  }

  lemma PlainParts(e: Entry)
    requires PlainWithin(e, MAX_DEPTH, INT32_MAX)
    ensures Regular(e) && Fits(e, MAX_DEPTH, INT32_MAX)
  {
  }

  /** Texts that are accepted and not strict. */
  lemma LooseNumbers()
    ensures Decode("i007e", 0, MAX_DEPTH, INT32_MAX) == Accepted(Int(7), 5)
    ensures Decode("i 1xe", 0, MAX_DEPTH, INT32_MAX) == Accepted(Int(1), 5)
  {
    hide Decode;
    LooseZeros();
    LooseBlank();
  }

  lemma LooseZeros()
    ensures Decode("i007e", 0, MAX_DEPTH, INT32_MAX) == Accepted(Int(7), 5)
  {
    hide DecodeItems, DecodeFields, DecodeString;
    assert Until("i007e", 1, 'e') == Until("i007e", 2, 'e') == 4 && "i007e"[1..4] == "007";
    assert "007"[1..] == "07" && "07"[1..] == "7" && "7"[1..] == "";
    assert Scan("007", 0) == Scan("07", 0) == Scan("7", 0) == 7 && SkipSpace("007") == "007";
  }

  lemma LooseBlank()
    ensures Decode("i 1xe", 0, MAX_DEPTH, INT32_MAX) == Accepted(Int(1), 5)
  {
    hide DecodeItems, DecodeFields, DecodeString;
    assert Until("i 1xe", 1, 'e') == Until("i 1xe", 2, 'e') == 4 && "i 1xe"[1..4] == " 1x";
    assert " 1x"[1..] == "1x" && "1x"[1..] == "x";
    assert SkipSpace(" 1x") == SkipSpace("1x") == "1x" && Scan("1x", 0) == Scan("x", 1) == 1;
  }

  lemma LooseLength()
    ensures Decode("3x:abc", 0, MAX_DEPTH, INT32_MAX) == Accepted(Str("abc"), 6)
  {
    assert Until("3x:abc", 0, ':') == 2 && "3x:abc"[0..2] == "3x" && "3x:abc"[3..6] == "abc";
    assert "3x"[1..] == "x" && Scan("3x", 0) == Scan("x", 3) == 3;
  }
}
