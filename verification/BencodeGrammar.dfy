/**
 Everything the decoder accepts, as a grammar: the texts it reads, with the blanks, signs and
 trailing characters it puts up with, and the entry that each one means. A text outside the
 grammar is refused.
 */
module BencodeGrammar {
  import opened Decimal
  import opened Bencode
  import opened BencodeProofs

  datatype Text =
    | IntText(blanks: string, sign: string, digits: string, tail: string)
    | StrText(length: string, tail: string, body: string)
    | ListText(items: Items)
    | DictText(pairs: Pairs)

  datatype Items = NoItem | Item(first: Text, rest: Items)

  /** The inside of a dictionary; a key that is no string cuts it off. */
  datatype Pairs = NoPair | Cut(key: Text) | Pair(key: Text, value: Text, rest: Pairs)

  function Written(t: Text): string {
    match t
    case IntText(blanks, sign, digits, tail) => "i" + (blanks + sign + digits + tail) + "e"
    case StrText(length, tail, body) => (length + tail) + ":" + body
    case ListText(items) => "l" + WrittenItems(items)
    case DictText(pairs) => "d" + WrittenPairs(pairs)
  }

  function WrittenItems(ts: Items): string {
    match ts
    case NoItem => "e"
    case Item(first, rest) => Written(first) + WrittenItems(rest)
  }

  function WrittenPairs(ps: Pairs): string {
    match ps
    case NoPair => "e"
    case Cut(key) => Written(key)
    case Pair(key, value, rest) => Written(key) + Written(value) + WrittenPairs(rest)
  }

  /** A run of digits, and something behind it that does not go on with it. */
  predicate DigitRun(digits: string, tail: string) {
    digits != "" && (forall c <- digits :: '0' <= c <= '9') && (tail != "" ==> !('0' <= tail[0] <= '9'))
  }

  predicate IsNumber(blanks: string, sign: string, digits: string, tail: string) {
    && (forall c <- blanks :: c as int == 32 || 9 <= c as int <= 13)
    && (sign == "" || sign == "+" || sign == "-") && DigitRun(digits, tail)
  }

  /** The texts allowed with budget levels of nesting and strings of at most max characters. */
  predicate Legal(t: Text, budget: nat, max: nat) {
    budget > 0 &&
    match t
    case IntText(blanks, sign, digits, tail) => IsNumber(blanks, sign, digits, tail) && 'e' !in tail
    case StrText(length, tail, body) =>
      DigitRun(length, tail) && ':' !in tail && Scan(length, 0) == |body| <= max
    case ListText(items) => LegalItems(items, budget - 1, max)
    case DictText(pairs) => LegalPairs(pairs, budget - 1, max)
  }

  predicate LegalItems(ts: Items, budget: nat, max: nat) {
    match ts
    case NoItem => true
    case Item(first, rest) => Legal(first, budget, max) && LegalItems(rest, budget, max)
  }

  predicate LegalPairs(ps: Pairs, budget: nat, max: nat) {
    match ps
    case NoPair => true
    case Cut(key) => !key.StrText? && Legal(key, budget, max)
    case Pair(key, value, rest) =>
      key.StrText? && Legal(key, budget, max) && Legal(value, budget, max) && LegalPairs(rest, budget, max)
  }

  /** The nearest int64. */
  function Clamped(n: int): Int64 {
    if n < -9223372036854775808 then -9223372036854775808
    else if n > 9223372036854775807 then 9223372036854775807
    else n
  }

  function Signed(sign: string, digits: string): int {
    var n: int := Scan(digits, 0);
    if sign == "-" then -n else n
  }

  function Meaning(t: Text): Entry
    decreases t
  {
    match t
    case IntText(_, sign, digits, _) => Int(Clamped(Signed(sign, digits)))
    case StrText(_, _, body) => Str(body)
    case ListText(items) => List(ItemsMean([], items))
    case DictText(pairs) => Dict(PairsMean([], pairs))
  }

  function ItemsMean(acc: seq<Entry>, ts: Items): seq<Entry>
    decreases ts
  {
    match ts
    case NoItem => acc
    case Item(first, rest) => ItemsMean(acc + [Meaning(first)], rest)
  }

  function PairsMean(acc: seq<Field>, ps: Pairs): seq<Field>
    decreases ps
  {
    match ps
    case Pair(StrText(_, _, key), value, rest) => PairsMean(Put(acc, key, Meaning(value)), rest)
    case _ => acc
  }

  // ---------- leaves ----------

  lemma {:induction false} ScanRun(digits: string, tail: string, acc: nat)
    requires (forall c <- digits :: IsDigit(c)) && (tail != "" ==> !IsDigit(tail[0]))
    ensures Scan(digits + tail, acc) == Scan(digits, acc)
  {
    if digits == "" {
      assert digits + tail == tail;
    } else {
      assert (digits + tail)[1..] == digits[1..] + tail;
      assert digits[0] in digits;
      ScanRun(digits[1..], tail, acc * 10 + DigitValue(digits[0]));
    }
  }

  lemma {:induction false} SkipBlanks(blanks: string, t: string)
    requires (forall c <- blanks :: IsSpace(c)) && (t != "" ==> !IsSpace(t[0]))
    ensures SkipSpace(blanks + t) == t
  {
    if blanks == "" {
      assert blanks + t == t;
    } else {
      assert blanks[0] in blanks && (blanks + t)[1..] == blanks[1..] + t;
      SkipBlanks(blanks[1..], t);
    }
  }

  lemma NumberReads(blanks: string, sign: string, digits: string, tail: string)
    requires IsNumber(blanks, sign, digits, tail)
    ensures Strtoll(blanks + sign + digits + tail) ==
      Number(Clamped(Signed(sign, digits)))
  {
    assert digits[0] in digits;
    var t := sign + digits + tail;
    assert blanks + sign + digits + tail == blanks + t;
    SkipBlanks(blanks, t);
    var u := digits + tail;
    assert (if sign == "" then t else t[1..]) == u;
    ScanRun(digits, tail, 0);
    hide SkipSpace, Scan;
  }

  /** The digits at the front of t. */
  function Run(t: string): (n: nat)
    ensures n <= |t|
    ensures forall c <- t[..n] :: IsDigit(c)
    ensures n < |t| ==> !IsDigit(t[n])
  {
    if t == "" || !IsDigit(t[0]) then 0
    else
      var n := Run(t[1..]);
      assert t[..n + 1] == [t[0]] + t[1..][..n];
      n + 1
  }

  lemma {:induction false} Blanks(t: string) returns (blanks: string)
    ensures t == blanks + SkipSpace(t) && forall c <- blanks :: IsSpace(c)
  {
    if t != "" && IsSpace(t[0]) {
      blanks := Blanks(t[1..]);
      blanks := [t[0]] + blanks;
    } else {
      blanks := "";
    }
  }

  lemma NumberStarts(t: string) returns (sign: string, v: string)
    requires Strtoll(t).Number?
    ensures SkipSpace(t) == sign + v && (sign == "" || sign == "+" || sign == "-")
    ensures v != "" && IsDigit(v[0])
  {
    hide Scan;
    var u := SkipSpace(t);
    if u[0] in "+-" {
      sign, v := [u[0]], u[1..];
    } else {
      sign, v := "", u;
    }
  }

  lemma RunParts(v: string) returns (digits: string, tail: string)
    requires v != "" && IsDigit(v[0])
    ensures v == digits + tail && DigitRun(digits, tail)
  {
    digits, tail := v[..Run(v)], v[Run(v)..];
  }

  lemma NumberParts(t: string) returns (blanks: string, sign: string, digits: string, tail: string)
    requires Strtoll(t).Number?
    ensures IsNumber(blanks, sign, digits, tail) && t == blanks + sign + digits + tail
  {
    blanks := Blanks(t);
    var v: string;
    sign, v := NumberStarts(t);
    digits, tail := RunParts(v);
    hide SkipSpace, Strtoll, DigitRun;
    assert blanks + (sign + (digits + tail)) == blanks + sign + digits + tail;
  }

  // ---------- every text of the grammar is accepted ----------

  lemma LegalStarts(t: Text, budget: nat, max: nat)
    requires Legal(t, budget, max)
    ensures Written(t) != "" && Written(t)[0] != 'e'
    ensures t.StrText? ==> IsDigit(Written(t)[0])
  {
    match t {
      case StrText(length, tail, body) => assert length[0] in length;
      case _ =>
    }
  }

  lemma AcceptsInt(t: Text, s: string, pos: nat)
    requires t.IntText? && Legal(t, 1, 0) && At(s, pos, Written(t))
    ensures pos < |s| && s[pos] == 'i' && DecodeInt(s, pos + 1) == Accepted(Meaning(t), pos + |Written(t)|)
  {
    hide Strtoll, Clamped, Signed;
    var body := t.blanks + t.sign + t.digits + t.tail;
    NumberReads(t.blanks, t.sign, t.digits, t.tail);
    assert 'e' !in body by { NoLetter(t.blanks, t.sign, t.digits, t.tail); }
    hide IsNumber;
    OpenBracket('i', body, s, pos);
    UntilFinds(s, pos + 1, body, 'e');
  }

  lemma NoLetter(blanks: string, sign: string, digits: string, tail: string)
    requires IsNumber(blanks, sign, digits, tail) && 'e' !in tail
    ensures 'e' !in blanks + sign + digits + tail
  {
  }

  lemma LengthReads(length: string, tail: string, n: nat, max: nat)
    requires DigitRun(length, tail) && ':' !in tail && Scan(length, 0) == n <= max
    ensures var head := length + tail;
      head != "" && IsDigit(head[0]) && ':' !in head && Atoi(head, max) == Value(n)
  {
    assert length[0] in length;
    ScanRun(length, tail, 0);
    hide Scan;
  }

  lemma AcceptsString(t: Text, s: string, pos: nat, max: nat)
    requires t.StrText? && Legal(t, 1, max) && At(s, pos, Written(t))
    ensures pos < |s| && IsDigit(s[pos])
    ensures DecodeString(s, pos, max) == Accepted(Meaning(t), pos + |Written(t)|)
  {
    hide Scan, At, DigitRun, DecodeString, Atoi, Until, IsDigit;
    var head := t.length + t.tail;
    LengthReads(t.length, t.tail, |t.body|, max);
    AtSplit3(s, pos, head, ":", t.body);
    AtSplit(s, pos, head + ":", t.body);
    UntilFinds(s, pos, head, ':');
    var stop := pos + |head|;
    AtSlice(s, stop + 1, t.body);
    assert s[pos] == s[pos..stop][0] == head[0];
    DecodeStringAt(s, pos, stop, |t.body|, max);
  }

  lemma {:induction false} Accepts(t: Text, s: string, pos: nat, budget: nat, max: nat)
    requires Legal(t, budget, max) && At(s, pos, Written(t))
    ensures Decode(s, pos, budget, max) == Accepted(Meaning(t), pos + |Written(t)|)
    decreases t
  {
    hide DecodeInt, DecodeString, DigitRun, IsNumber;
    match t {
      case IntText(_, _, _, _) => AcceptsInt(t, s, pos);
      case StrText(_, _, _) => AcceptsString(t, s, pos, max);
      case ListText(items) =>
        AtSplit(s, pos, "l", WrittenItems(items));
        AcceptsItems(items, s, pos + 1, budget, max, []);
      case DictText(pairs) =>
        AtSplit(s, pos, "d", WrittenPairs(pairs));
        AcceptsPairs(pairs, s, pos + 1, budget, max, []);
    }
  }

  lemma {:induction false} AcceptsItems(ts: Items, s: string, pos: nat, budget: nat, max: nat, acc: seq<Entry>)
    requires budget > 0 && LegalItems(ts, budget - 1, max) && At(s, pos, WrittenItems(ts))
    ensures DecodeItems(s, pos, budget, max, acc) == Accepted(List(ItemsMean(acc, ts)), pos + |WrittenItems(ts)|)
    decreases ts
  {
    hide Decode, Written, Legal, Meaning;
    match ts {
      case NoItem =>
      case Item(first, rest) =>
        AtSplit(s, pos, Written(first), WrittenItems(rest));
        LegalStarts(first, budget - 1, max);
        Accepts(first, s, pos, budget - 1, max);
        MoreItems(rest, budget - 1, max);
        AcceptsItems(rest, s, pos + |Written(first)|, budget, max, acc + [Meaning(first)]);
    }
  }

  lemma MoreItems(ts: Items, budget: nat, max: nat)
    requires LegalItems(ts, budget, max)
    ensures WrittenItems(ts) != ""
  {
    if ts.Item? { LegalStarts(ts.first, budget, max); }
  }

  lemma MorePairs(ps: Pairs, budget: nat, max: nat)
    requires LegalPairs(ps, budget, max)
    ensures WrittenPairs(ps) != ""
  {
    if !ps.NoPair? { LegalStarts(ps.key, budget, max); }
  }

  lemma PairStep(s: string, pos: nat, p: nat, q: nat, key: string, value: Entry,
                 budget: nat, max: nat, acc: seq<Field>)
    requires pos < |s| && s[pos] != 'e' && p <= |s| && budget > 0
    requires Decode(s, pos, budget - 1, max) == Accepted(Str(key), p)
    requires Decode(s, p, budget - 1, max) == Accepted(value, q)
    ensures DecodeFields(s, pos, budget, max, acc) ==
      if q == |s| then Rejected(|s|) else DecodeFields(s, q, budget, max, Put(acc, key, value))
  {
    hide Decode, Put;
  }

  lemma {:induction false} AcceptsPairs(ps: Pairs, s: string, pos: nat, budget: nat, max: nat, acc: seq<Field>)
    requires budget > 0 && LegalPairs(ps, budget - 1, max) && At(s, pos, WrittenPairs(ps))
    ensures DecodeFields(s, pos, budget, max, acc) == Accepted(Dict(PairsMean(acc, ps)), pos + |WrittenPairs(ps)|)
    decreases ps
  {
    hide Decode, Written, Legal, Put;
    match ps {
      case NoPair =>
      case Cut(key) =>
        LegalStarts(key, budget - 1, max);
        Accepts(key, s, pos, budget - 1, max);
        assert !Meaning(key).Str?;
      case Pair(key, value, rest) =>
        AtSplit3(s, pos, Written(key), Written(value), WrittenPairs(rest));
        var next := pos + |Written(key)|;
        AtSplit(s, next, Written(value), WrittenPairs(rest));
        LegalStarts(key, budget - 1, max);
        Accepts(key, s, pos, budget - 1, max);
        Accepts(value, s, next, budget - 1, max);
        assert Meaning(key) == Str(key.body);
        hide DecodeFields, Meaning;
        PairStep(s, pos, next, next + |Written(value)|, key.body, Meaning(value), budget, max, acc);
        MorePairs(rest, budget - 1, max);
        AcceptsPairs(rest, s, next + |Written(value)|, budget, max, Put(acc, key.body, Meaning(value)));
    }
  }

  // ---------- every text that is accepted is in the grammar ----------

  lemma TextOfInt(s: string, pos: nat) returns (t: Text)
    requires pos < |s| && s[pos] == 'i' && DecodeInt(s, pos + 1).Accepted?
    ensures var r := DecodeInt(s, pos + 1);
      t.IntText? && Legal(t, 1, 0) && s[pos..r.pos] == Written(t) && Meaning(t) == r.e
  {
    hide Strtoll, Clamped, Signed, IsNumber;
    var stop := Until(s, pos + 1, 'e');
    var blanks, sign, digits, tail := NumberParts(s[pos + 1..stop]);
    NumberReads(blanks, sign, digits, tail);
    t := IntText(blanks, sign, digits, tail);
    assert s[pos..stop + 1] == "i" + s[pos + 1..stop] + "e";
  }

  lemma LengthParts(head: string, max: nat) returns (length: string, tail: string)
    requires head != "" && IsDigit(head[0]) && ':' !in head && Atoi(head, max).Value?
    ensures DigitRun(length, tail) && ':' !in tail && Scan(length, 0) == Atoi(head, max).v <= max
    ensures head == length + tail
  {
    length, tail := RunParts(head);
    ScanRun(length, tail, 0);
  }

  lemma StringEnds(s: string, pos: nat, max: nat) returns (head: string, body: string)
    requires pos < |s| && IsDigit(s[pos]) && DecodeString(s, pos, max).Accepted?
    ensures var r := DecodeString(s, pos, max);
      && head != "" && IsDigit(head[0]) && ':' !in head && Atoi(head, max) == Value(|body|)
      && s[pos..r.pos] == head + ":" + body && r.e == Str(body)
  {
    assert s[pos] != ':';
    hide Atoi, Until, IsDigit;
    var stop := Until(s, pos, ':');
    var end := DecodeString(s, pos, max).pos;
    head, body := s[pos..stop], s[stop + 1..end];
    assert s[pos..end] == s[pos..stop] + [s[stop]] + s[stop + 1..end];
  }

  lemma TextOfString(s: string, pos: nat, max: nat) returns (t: Text)
    requires pos < |s| && IsDigit(s[pos]) && DecodeString(s, pos, max).Accepted?
    ensures var r := DecodeString(s, pos, max);
      t.StrText? && Legal(t, 1, max) && s[pos..r.pos] == Written(t) && Meaning(t) == r.e
  {
    hide Atoi, DecodeString, IsDigit, DigitRun, Scan;
    var head, body := StringEnds(s, pos, max);
    var length, tail := LengthParts(head, max);
    t := StrText(length, tail, body);
  }

  lemma {:induction false} TextOf(s: string, pos: nat, budget: nat, max: nat) returns (t: Text)
    requires pos <= |s| && Decode(s, pos, budget, max).Accepted?
    ensures var r := Decode(s, pos, budget, max);
      Legal(t, budget, max) && s[pos..r.pos] == Written(t) && Meaning(t) == r.e
    decreases |s| - pos, 0
  {
    hide DecodeInt, DecodeString, DigitRun, IsNumber, Scan, Clamped, Signed;
    var end := Decode(s, pos, budget, max).pos;
    if s[pos] == 'i' {
      t := TextOfInt(s, pos);
    } else if s[pos] == 'l' {
      var items := ItemsOf(s, pos + 1, budget, max, []);
      t := ListText(items);
      assert s[pos..end] == "l" + s[pos + 1..end];
    } else if s[pos] == 'd' {
      var pairs := PairsOf(s, pos + 1, budget, max, []);
      t := DictText(pairs);
      assert s[pos..end] == "d" + s[pos + 1..end];
    } else {
      t := TextOfString(s, pos, max);
    }
  }

  lemma {:induction false} ItemsOf(s: string, pos: nat, budget: nat, max: nat, acc: seq<Entry>) returns (ts: Items)
    requires pos <= |s| && budget > 0 && DecodeItems(s, pos, budget, max, acc).Accepted?
    ensures var r := DecodeItems(s, pos, budget, max, acc);
      LegalItems(ts, budget - 1, max) && s[pos..r.pos] == WrittenItems(ts) && r.e == List(ItemsMean(acc, ts))
    decreases |s| - pos, 1
  {
    hide Decode, Written, Legal, Meaning;
    var end := DecodeItems(s, pos, budget, max, acc).pos;
    if pos < |s| && s[pos] == 'e' {
      ts := NoItem;
    } else {
      var first := TextOf(s, pos, budget - 1, max);
      var p := Decode(s, pos, budget - 1, max).pos;
      var rest := ItemsOf(s, p, budget, max, acc + [Meaning(first)]);
      ts := Item(first, rest);
      assert s[pos..end] == s[pos..p] + s[p..end];
    }
  }

  lemma {:induction false} PairsOf(s: string, pos: nat, budget: nat, max: nat, acc: seq<Field>) returns (ps: Pairs)
    requires pos <= |s| && budget > 0 && DecodeFields(s, pos, budget, max, acc).Accepted?
    ensures var r := DecodeFields(s, pos, budget, max, acc);
      LegalPairs(ps, budget - 1, max) && s[pos..r.pos] == WrittenPairs(ps) && r.e == Dict(PairsMean(acc, ps))
    decreases |s| - pos, 1
  {
    hide Decode, Written, Legal, Put;
    var end := DecodeFields(s, pos, budget, max, acc).pos;
    if pos < |s| && s[pos] == 'e' {
      ps := NoPair;
    } else {
      var key := TextOf(s, pos, budget - 1, max);
      var p := Decode(s, pos, budget - 1, max).pos;
      if key.StrText? {
        var value := TextOf(s, p, budget - 1, max);
        var q := Decode(s, p, budget - 1, max).pos;
        var rest := PairsOf(s, q, budget, max, Put(acc, key.body, Meaning(value)));
        ps := Pair(key, value, rest);
        assert s[pos..end] == s[pos..p] + s[p..q] + s[q..end];
      } else {
        ps := Cut(key);
      }
    }
  }

  // ---------- refusals ----------

  predicate FirstAt(s: string, pos: nat, c: char, stop: nat) {
    pos <= stop < |s| && s[stop] == c && c !in s[pos..stop]
  }

  lemma UntilExact(s: string, pos: nat, c: char, stop: nat)
    requires pos <= |s|
    ensures FirstAt(s, pos, c, stop) ==> Until(s, pos, c) == stop
    ensures c !in s[pos..] ==> Until(s, pos, c) == |s|
  {
  }

  ghost predicate HasNumber(t: string) {
    exists blanks, sign, digits, tail ::
      IsNumber(blanks, sign, digits, tail) && t == blanks + sign + digits + tail
  }

  lemma NoNumber(t: string)
    requires !HasNumber(t)
    ensures Strtoll(t).NoDigits?
  {
    if Strtoll(t).Number? {
      var blanks, sign, digits, tail := NumberParts(t);
    }
  }

  /** A node that cannot start, and where the input is left. */
  lemma RefusesStart(s: string, pos: nat, budget: nat, max: nat)
    requires pos <= |s|
    requires budget == 0 || pos == |s| || (s[pos] !in "ild" && !('0' <= s[pos] <= '9'))
    ensures Decode(s, pos, budget, max) == Rejected(pos)
  {
  }

  /** An integer without an end, or without a digit behind its blanks and its sign. */
  lemma RefusesInt(s: string, pos: nat, stop: nat, budget: nat, max: nat)
    requires budget > 0 && pos < |s| && s[pos] == 'i'
    ensures 'e' !in s[pos + 1..] ==> Decode(s, pos, budget, max) == Rejected(|s|)
    ensures FirstAt(s, pos + 1, 'e', stop) && !HasNumber(s[pos + 1..stop]) ==>
      Decode(s, pos, budget, max) == Rejected(stop + 1)
  {
    hide HasNumber, Until, Strtoll;
    UntilExact(s, pos + 1, 'e', stop);
    if FirstAt(s, pos + 1, 'e', stop) && !HasNumber(s[pos + 1..stop]) {
      NoNumber(s[pos + 1..stop]);
    }
  }

  /** A string without a colon, one whose length no int holds, and one that is cut short. */
  lemma RefusesString(s: string, pos: nat, stop: nat, budget: nat, max: nat)
    requires budget > 0 && pos < |s| && '0' <= s[pos] <= '9'
    ensures ':' !in s[pos..] ==> Decode(s, pos, budget, max) == Rejected(|s|)
    ensures FirstAt(s, pos, ':', stop) ==>
      var n := Scan(s[pos..stop], 0);
      && (n > max ==> Decode(s, pos, budget, max) == Overflown(stop + 1))
      && (n <= max && stop + 1 + n > |s| ==> Decode(s, pos, budget, max) == Rejected(|s|))
  {
    hide Until, Scan;
    UntilExact(s, pos, ':', stop);
    assert FirstAt(s, pos, ':', stop) ==> s[pos..stop] != "" && s[pos..stop][0] == s[pos];
  }

  /** The text of the items so far, without the end of the list. */
  function FrontItems(ts: Items): string {
    match ts
    case NoItem => ""
    case Item(first, rest) => Written(first) + FrontItems(rest)
  }

  lemma NothingLeft(s: string, budget: nat, max: nat)
    requires budget > 0
    ensures forall acc :: DecodeItems(s, |s|, budget, max, acc) == Rejected(|s|)
    ensures forall acc :: DecodeFields(s, |s|, budget, max, acc) == Rejected(|s|)
  {
  }

  lemma {:induction false} ReadsItems(ts: Items, s: string, pos: nat, budget: nat, max: nat, acc: seq<Entry>)
    requires budget > 0 && LegalItems(ts, budget - 1, max) && At(s, pos, FrontItems(ts))
    ensures var next := pos + |FrontItems(ts)|;
      next <= |s| && DecodeItems(s, pos, budget, max, acc) ==
      if next == |s| then Rejected(|s|) else DecodeItems(s, next, budget, max, ItemsMean(acc, ts))
    decreases ts
  {
    hide Written, Legal, Meaning, Decode;
    NothingLeft(s, budget, max);
    match ts {
      case NoItem =>
      case Item(first, rest) =>
        AtSplit(s, pos, Written(first), FrontItems(rest));
        hide At;
        LegalStarts(first, budget - 1, max);
        Accepts(first, s, pos, budget - 1, max);
        ReadsItems(rest, s, pos + |Written(first)|, budget, max, acc + [Meaning(first)]);
    }
  }

  /** A list that is never closed, and one with a node that is refused. */
  lemma RefusesList(ts: Items, s: string, pos: nat, budget: nat, max: nat)
    requires budget > 0 && LegalItems(ts, budget - 1, max) && At(s, pos, "l" + FrontItems(ts))
    ensures var next := pos + 1 + |FrontItems(ts)|;
      && next <= |s|
      && (next == |s| ==> Decode(s, pos, budget, max) == Rejected(|s|))
      && (next < |s| && s[next] != 'e' && !Decode(s, next, budget - 1, max).Accepted? ==>
            Decode(s, pos, budget, max) == Decode(s, next, budget - 1, max))
  {
    hide DecodeFields, DecodeInt, DecodeString, FrontItems, LegalItems;
    AtSplit(s, pos, "l", FrontItems(ts));
    ReadsItems(ts, s, pos + 1, budget, max, []);
  }

  function FrontPairs(ps: Pairs): string {
    match ps
    case Pair(key, value, rest) => Written(key) + Written(value) + FrontPairs(rest)
    case _ => ""
  }

  predicate Uncut(ps: Pairs) {
    match ps
    case NoPair => true
    case Cut(_) => false
    case Pair(_, _, rest) => Uncut(rest)
  }

  lemma {:induction false} ReadsPairs(ps: Pairs, s: string, pos: nat, budget: nat, max: nat, acc: seq<Field>)
    requires budget > 0 && Uncut(ps) && LegalPairs(ps, budget - 1, max) && At(s, pos, FrontPairs(ps))
    ensures var next := pos + |FrontPairs(ps)|;
      next <= |s| && DecodeFields(s, pos, budget, max, acc) ==
      if next == |s| then Rejected(|s|) else DecodeFields(s, next, budget, max, PairsMean(acc, ps))
    decreases ps
  {
    hide Written, Legal, Put, Decode;
    NothingLeft(s, budget, max);
    match ps {
      case NoPair =>
      case Pair(key, value, rest) =>
        AtSplit3(s, pos, Written(key), Written(value), FrontPairs(rest));
        var next := pos + |Written(key)|;
        AtSplit(s, next, Written(value), FrontPairs(rest));
        hide At;
        LegalStarts(key, budget - 1, max);
        Accepts(key, s, pos, budget - 1, max);
        Accepts(value, s, next, budget - 1, max);
        assert Meaning(key) == Str(key.body);
        hide DecodeFields, Meaning;
        PairStep(s, pos, next, next + |Written(value)|, key.body, Meaning(value), budget, max, acc);
        ReadsPairs(rest, s, next + |Written(value)|, budget, max, Put(acc, key.body, Meaning(value)));
    }
  }

  /** A dictionary that is never closed, and one with a key, or a value behind a string key,
      that is refused. */
  lemma RefusesDict(ps: Pairs, s: string, pos: nat, budget: nat, max: nat)
    requires budget > 0 && Uncut(ps) && LegalPairs(ps, budget - 1, max) && At(s, pos, "d" + FrontPairs(ps))
    ensures var next := pos + 1 + |FrontPairs(ps)|;
      && next <= |s|
      && (next == |s| ==> Decode(s, pos, budget, max) == Rejected(|s|))
      && (next < |s| && s[next] != 'e' ==>
            var k := Decode(s, next, budget - 1, max);
            && (!k.Accepted? ==> Decode(s, pos, budget, max) == k)
            && (k.Accepted? && k.e.Str? && !Decode(s, k.pos, budget - 1, max).Accepted? ==>
                  Decode(s, pos, budget, max) == Decode(s, k.pos, budget - 1, max)))
  {
    hide DecodeItems, DecodeInt, DecodeString, FrontPairs, LegalPairs, Uncut, Put;
    AtSplit(s, pos, "d", FrontPairs(ps));
    ReadsPairs(ps, s, pos + 1, budget, max, []);
  }

  // ---------- main results ----------

  /** The decoder accepts exactly the texts of the grammar with at most 100 levels and strings
      of at most 2147483647 characters, stops behind them, and reads what they mean. */
  lemma AcceptedExactly(s: string, pos: nat, e: Entry, end: nat)
    requires pos <= end <= |s|
    ensures Decode(s, pos, MAX_DEPTH, INT32_MAX) == Accepted(e, end) <==>
      exists t :: Legal(t, 100, 2147483647) && Written(t) == s[pos..end] && Meaning(t) == e
  {
    hide Decode, Legal, Written, Meaning;
    if Decode(s, pos, MAX_DEPTH, INT32_MAX) == Accepted(e, end) {
      var t := TextOf(s, pos, MAX_DEPTH, INT32_MAX);
    }
    if t :| Legal(t, 100, 2147483647) && Written(t) == s[pos..end] && Meaning(t) == e {
      AtSlice(s, pos, Written(t));
      Accepts(t, s, pos, MAX_DEPTH, INT32_MAX);
    }
  }

  /** The first character tells the kind of what is accepted. */
  lemma KindExact(s: string, pos: nat)
    requires pos <= |s| && Decode(s, pos, MAX_DEPTH, INT32_MAX).Accepted?
    ensures pos < |s|
    ensures var e := Decode(s, pos, MAX_DEPTH, INT32_MAX).e;
      && (e.Int? <==> s[pos] == 'i') && (e.List? <==> s[pos] == 'l')
      && (e.Dict? <==> s[pos] == 'd') && (e.Str? <==> '0' <= s[pos] <= '9')
  {
    var t := TextOf(s, pos, MAX_DEPTH, INT32_MAX);
    hide Decode;
    LegalStarts(t, MAX_DEPTH, INT32_MAX);
    assert s[pos] == Written(t)[0];
  }

  /** Three texts that are refused. */
  lemma RefusedTexts()
    ensures Decode("hello", 0, MAX_DEPTH, INT32_MAX) == Rejected(0)
    ensures Decode("ixe", 0, MAX_DEPTH, INT32_MAX) == Rejected(3)
    ensures Decode("li1ex2:abe", 0, MAX_DEPTH, INT32_MAX) == Rejected(4)
  {
    hide Decode;
    RefusesStart("hello", 0, MAX_DEPTH, INT32_MAX);
    RefusedNumber();
    RefusedList();
  }

  lemma RefusedList()
    ensures Decode("li1ex2:abe", 0, MAX_DEPTH, INT32_MAX) == Rejected(4)
  {
    hide DecodeFields, DecodeString;
    var s := "li1ex2:abe";
    assert Until(s, 2, 'e') == 3 && s[2..3] == "1" && "1"[1..] == "";
    assert Strtoll("1") == Number(1);
    hide Strtoll, Until;
    assert Decode(s, 1, MAX_DEPTH - 1, INT32_MAX) == Accepted(Int(1), 4);
    assert Decode(s, 4, MAX_DEPTH - 1, INT32_MAX) == Rejected(4);
    assert DecodeItems(s, 4, MAX_DEPTH, INT32_MAX, [Int(1)]) == Rejected(4);
  }

  lemma RefusedNumber()
    ensures Decode("ixe", 0, MAX_DEPTH, INT32_MAX) == Rejected(3)
  {
    assert "ixe"[1..2] == "x" && Until("ixe", 1, 'e') == 2;
  }
}
