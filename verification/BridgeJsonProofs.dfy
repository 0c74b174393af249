/**
 The extractors against real objects: on the compact flat objects the bridge writes, a
 substring search for a key finds that key's own field and nothing else.
 */
module BridgeJsonProofs {
  import opened Decimal
  import opened Wrappers
  import opened BridgeJson
  import opened CStrings
  import opened JsonTexts

  /** The values of an object: a string as some writer prints it, %d, a bool, and %f. */
  datatype JsonValue = Text(units: seq<Unit>) | Integer(i: int) | Flag(b: bool) | Fixed(whole: nat, fraction: string)

  datatype Member = Member(key: string, value: JsonValue)

  function RenderValue(v: JsonValue): string {
    match v
    case Text(units) => "\"" + Print(units) + "\""
    case Integer(i) => IntToStr(i)
    case Flag(b) => if b then "true" else "false"
    case Fixed(whole, fraction) => Digits(whole) + "." + fraction
  }

  function RenderMember(m: Member): string {
    Opening(m.key) + RenderValue(m.value)
  }

  /** The members, each behind its separator, and the closing brace. */
  function Body(separator: char, ms: seq<Member>): string
    decreases ms
  {
    if ms == [] then (if separator == '{' then "{}" else "}")
    else [separator] + RenderMember(ms[0]) + Body(',', ms[1..])
  }

  function Render(ms: seq<Member>): string {
    Body('{', ms)
  }

  predicate KeyChar(c: char) {
    'a' <= c <= 'z' || '0' <= c <= '9' || c == '_'
  }

  predicate KeyText(key: string) {
    key != "" && forall i | 0 <= i < |key| :: KeyChar(key[i])
  }

  predicate ValidMember(m: Member) {
    KeyText(m.key) && (m.value.Fixed? ==> forall c <- m.value.fraction :: IsDigit(c))
  }

  /** An object with distinct keys; its string values are arbitrary. */
  predicate ValidMembers(ms: seq<Member>) {
    && (forall i | 0 <= i < |ms| :: ValidMember(ms[i]))
    && (forall i, j | 0 <= i < j < |ms| :: ms[i].key != ms[j].key)
  }

  /** The members from the one with the given key on; none if there is no such key. */
  function From(ms: seq<Member>, key: string): seq<Member> {
    if ms == [] || ms[0].key == key then ms else From(ms[1..], key)
  }

  function Lookup(ms: seq<Member>, key: string): Option<JsonValue> {
    if From(ms, key) == [] then None else Some(From(ms, key)[0].value)
  }

  /** Lookup is what a reader expects of a set of members. */
  lemma {:induction false} LookupFinds(ms: seq<Member>, key: string)
    requires ValidMembers(ms)
    ensures forall i | 0 <= i < |ms| && ms[i].key == key :: Lookup(ms, key) == Some(ms[i].value)
    ensures Lookup(ms, key) == None <==> forall i | 0 <= i < |ms| :: ms[i].key != key
  {
    if ms != [] {
      var rest := ms[1..];
      assert forall i | 1 <= i < |ms| :: ms[i] == rest[i - 1];
      LookupFinds(rest, key);
    }
  }

  // ---------- where quotes can stand ----------

  /** What a match of "key": at position p of s tells: an opening quote, the key, a quote, a colon. */
  lemma MatchShape(s: string, p: nat, key: string, search: string)
    requires KeyText(key) && Opening(key) <= search && OccursAt(s, p, search)
    ensures p + |key| + 2 < |s|
    ensures s[p] == '\"' && s[p + |key| + 1] == '\"' && s[p + |key| + 2] == ':'
    ensures forall j | p < j <= p + |key| :: s[j] == key[j - p - 1] && KeyChar(s[j])
  {
    var w := Opening(key);
    assert w <= s[p..] by { assert w == search[..|w|] == s[p..][..|w|]; }
    assert forall j | 0 <= j < |w| :: s[p + j] == w[j];
    assert w[0] == '\"' && w[|key| + 1] == '\"' && w[|key| + 2] == ':';
    forall j | p < j <= p + |key|
      ensures s[j] == key[j - p - 1] && KeyChar(s[j])
    {
      assert s[p + (j - p)] == w[j - p] == key[j - p - 1];
    }
  }

  /** The quotes around and inside a member's key, in [separator] + member + rest. */
  lemma KeyLayout(separator: char, m: Member, rest: string)
    requires ValidMember(m)
    ensures var s := [separator] + RenderMember(m) + rest;
      && s[0] == separator && s[1] == '\"' && s[|m.key| + 2] == '\"' && s[|m.key| + 3] == ':'
      && forall j | 1 < j <= |m.key| + 1 :: s[j] == m.key[j - 2] && KeyChar(s[j])
  {
    hide RenderValue;
    var s := [separator] + RenderMember(m) + rest;
    assert s == [separator, '\"'] + m.key + "\":" + RenderValue(m.value) + rest;
    assert forall j | 1 < j <= |m.key| + 1 :: s[j] == m.key[j - 2];
  }

  lemma ValueChars(separator: char, m: Member, rest: string)
    requires rest != ""
    ensures var s, v, start := [separator] + RenderMember(m) + rest, RenderValue(m.value), |m.key| + 4;
      && |RenderMember(m)| == start + |v| - 1 && s[start - 1] == ':' && s[start + |v|] == rest[0]
      && forall j | start <= j < start + |v| :: s[j] == v[j - start]
  {
    hide RenderValue;
  }

  /** A quote in or around a member's value: either no key stands before it, or no colon
      behind it; and the last quote ends the value. */
  lemma ValueLayout(separator: char, m: Member, rest: string)
    requires ValidMember(m) && rest != "" && rest[0] in ",}"
    ensures var s, start, last := [separator] + RenderMember(m) + rest, |m.key| + 4, |RenderMember(m)|;
      && (forall q | start <= q <= last && s[q] == '\"' && KeyChar(s[q - 1]) :: s[q + 1] != ':')
      && (forall q | start <= q <= last && s[q] == '\"' :: s[last] == '\"' && !KeyChar(s[last + 1]))
  {
    hide RenderValue, Print, KeyText, Opening;
    var s, start, v := [separator] + RenderMember(m) + rest, |m.key| + 4, RenderValue(m.value);
    ValueChars(separator, m, rest);
    hide RenderMember;
    forall q | start <= q < start + |v| && s[q] == '\"'
      ensures s[start + |v| - 1] == '\"' && (KeyChar(s[q - 1]) ==> s[q + 1] != ':')
    {
      QuoteInValue(m.value, q - start);
    }
  }

  /** A quote in a printed value opens it, is escaped, or closes it. */
  lemma QuoteInValue(v: JsonValue, i: nat)
    requires v.Fixed? ==> forall c <- v.fraction :: IsDigit(c)
    requires i < |RenderValue(v)| && RenderValue(v)[i] == '\"'
    ensures v.Text? && RenderValue(v)[|RenderValue(v)| - 1] == '\"'
    ensures i == 0 || i == |RenderValue(v)| - 1 || RenderValue(v)[i - 1] == '\\'
  {
    assert RenderValue(v)[i] in RenderValue(v);
    if 0 < i < |RenderValue(v)| - 1 {
      assert RenderValue(v)[i] == Print(v.units)[i - 1];
      QuotesAreEscaped(v.units, i - 1);
      assert RenderValue(v)[i - 1] == Print(v.units)[i - 2];
    }
  }

  lemma SameKey(s: string, own: string, key: string)
    requires |s| > |own| + 2 && |s| > |key| + 2 && s[|own| + 2] == s[|key| + 2] == '\"'
    requires forall j | 1 < j <= |own| + 1 :: s[j] == own[j - 2] && KeyChar(s[j])
    requires forall j | 1 < j <= |key| + 1 :: s[j] == key[j - 2] && KeyChar(s[j])
    ensures own == key
  {
    assert |own| == |key|;
    assert forall j | 0 <= j < |own| :: own[j] == s[j + 2] == key[j];
  }

  /** In a separator, a member and what follows it, "key": can only match at the member's
      own start, and only if the member has that key. */
  lemma OnlyOwnMatch(separator: char, m: Member, rest: string, p: nat, key: string, search: string)
    requires KeyText(key) && Opening(key) <= search && ValidMember(m)
    requires separator in "{," && rest != "" && rest[0] in ",}"
    requires p <= |RenderMember(m)|
    requires OccursAt([separator] + RenderMember(m) + rest, p, search)
    ensures p == 1 && m.key == key
  {
    hide RenderMember, Opening, OccursAt;
    var s := [separator] + RenderMember(m) + rest;
    KeyLayout(separator, m, rest);
    ValueLayout(separator, m, rest);
    MatchShape(s, p, key, search);
    hide *;
    var close, last, q := |m.key| + 2, |RenderMember(m)|, p + |key| + 1;
    assert KeyChar(s[q - 1]) && KeyChar(s[p + 1]);
    assert p <= close + 1;
    assert p != 0;
    assert p == 1;
    SameKey(s, m.key, key);
  }

  // ---------- searching a whole object ----------

  lemma {:induction false} SkipTo(s: string, n: nat, search: string)
    requires n <= |s| && search != "" && forall p: nat | p < n :: !OccursAt(s, p, search)
    ensures AfterFirst(s, search) == AfterFirst(s[n..], search)
  {
    if n > 0 {
      assert !OccursAt(s, 0, search);
      forall p: nat | p < n - 1
        ensures !OccursAt(s[1..], p, search)
      {
        assert !OccursAt(s, p + 1, search);
        assert s[1..][p..] == s[p + 1..];
      }
      SkipTo(s[1..], n - 1, search);
      assert s[1..][n - 1..] == s[n..];
    }
  }

  lemma BodyStarts(separator: char, ms: seq<Member>)
    ensures Body(separator, ms) != "" && (separator == ',' ==> Body(separator, ms)[0] in ",}")
  {
  }

  /** The text after the first "key": followed by tail: it is found in the member with that
      key, or nowhere. */
  lemma {:induction false} FindMember(separator: char, ms: seq<Member>, key: string, tail: string)
    requires ValidMembers(ms) && KeyText(key) && separator in "{,"
    ensures var own := From(ms, key);
      AfterFirst(Body(separator, ms), Opening(key) + tail) ==
      if own == [] then None
      else var text := RenderValue(own[0].value) + Body(',', own[1..]);
        if tail <= text then Some(text[|tail|..]) else None
    decreases ms
  {
    var search := Opening(key) + tail;
    var s := Body(separator, ms);
    if ms == [] {
      NoQuoteNoMatch(s, search);
    } else {
      var m, rest := ms[0], Body(',', ms[1..]);
      var n := 1 + |RenderMember(m)|;
      BodyStarts(',', ms[1..]);
      assert Opening(key) <= search;
      assert s[n..] == rest;
      if m.key == key {
        OwnMatch(separator, m, rest, tail);
      }
      if m.key == key && tail <= RenderValue(m.value) + rest {
        forall p: nat | p < 1
          ensures !OccursAt(s, p, search)
        {
          assert s[p] != '\"';
        }
        SkipTo(s, 1, search);
      } else {
        forall p: nat | p < n
          ensures !OccursAt(s, p, search)
        {
          if OccursAt(s, p, search) {
            OnlyOwnMatch(separator, m, rest, p, key, search);
          }
        }
        SkipTo(s, n, search);
        FindMember(',', ms[1..], key, tail);
        OtherKeys(ms, key);
      }
    }
  }

  lemma NoQuoteNoMatch(s: string, search: string)
    requires search != "" && search[0] == '\"' && '\"' !in s
    ensures AfterFirst(s, search) == None
  {
    if s != "" {
      assert s[0] in s;
      NoQuoteNoMatch(s[1..], search);
    }
  }

  lemma OtherKeys(ms: seq<Member>, key: string)
    requires ValidMembers(ms) && ms != []
    ensures From(ms[1..], key) == if ms[0].key == key then [] else From(ms, key)
  {
    if ms[0].key == key {
      LookupFinds(ms[1..], key);
    }
  }

  lemma OwnMatch(separator: char, m: Member, rest: string, tail: string)
    ensures var s, text := [separator] + RenderMember(m) + rest, RenderValue(m.value) + rest;
      && (OccursAt(s, 1, Opening(m.key) + tail) <==> tail <= text)
      && (tail <= text ==> AfterFirst(s[1..], Opening(m.key) + tail) == Some(text[|tail|..]))
  {
    hide RenderValue, Opening, OccursAt, AfterFirst;
    var s, text := [separator] + RenderMember(m) + rest, RenderValue(m.value) + rest;
    DropSeparator(separator, Opening(m.key), RenderValue(m.value), rest);
    MatchAtOne(s, Opening(m.key), tail, text);
  }

  lemma DropSeparator(separator: char, a: string, b: string, c: string)
    ensures ([separator] + (a + b) + c)[1..] == a + (b + c)
  {
  }

  lemma MatchAtOne(s: string, front: string, tail: string, text: string)
    requires s != "" && s[1..] == front + text
    ensures OccursAt(s, 1, front + tail) <==> tail <= text
    ensures tail <= text ==> AfterFirst(s[1..], front + tail) == Some(text[|tail|..])
  {
    CommonFront(front, tail, text);
  }

  lemma CommonFront(front: string, a: string, b: string)
    ensures front + a <= front + b <==> a <= b
    ensures a <= b ==> (front + b)[|front + a|..] == b[|a|..]
  {
    if front + a <= front + b {
      assert a == (front + a)[|front|..] == (front + b)[|front|..][..|a|] == b[..|a|];
    }
  }

  // ---------- reading a printed value ----------

  lemma {:induction false} ScanIntDigits(n: nat, rest: string)
    ensures ScanInt(Digits(n) + rest, 0) == if n <= INT32_MAX then ScanInt(rest, n) else Overflow
  {
    if n < 10 {
      assert (Digits(n) + rest)[1..] == rest;
    } else {
      var last := [DigitChar(n % 10)];
      assert Digits(n) + rest == Digits(n / 10) + (last + rest);
      ScanIntDigits(n / 10, last + rest);
      assert (last + rest)[1..] == rest;
    }
  }

  /** The first character of a printed value tells its kind. */
  lemma ValueStarts(v: JsonValue, rest: string)
    ensures var t := RenderValue(v) + rest;
      && t != "" && t[0] !in " \t"
      && (v.Text? <==> t[0] == '\"')
      && (v.Integer? || v.Fixed? <==> IsDigit(t[0]) || t[0] == '-')
  {
  }

  /** The int an extractor reads off a printed value. */
  function AsInt(v: JsonValue): IntResult {
    match v
    case Integer(i) => if -INT32_MAX <= i <= INT32_MAX then Value(i) else Overflow
    case Fixed(whole, _) => if whole <= INT32_MAX then Value(whole) else Overflow
    case _ => Value(0)
  }

  lemma ScanValue(v: JsonValue, rest: string)
    requires rest != "" && !IsDigit(rest[0])
    ensures ScanSigned(RenderValue(v) + rest) == AsInt(v)
  {
    var t := RenderValue(v) + rest;
    ValueStarts(v, rest);
    match v {
      case Integer(i) =>
        var n: nat := if i < 0 then -i else i;
        assert (if i < 0 then t[1..] else t) == Digits(n) + rest;
        ScanIntDigits(n, rest);
      case Fixed(whole, fraction) =>
        assert t == Digits(whole) + ("." + fraction + rest);
        ScanIntDigits(whole, "." + fraction + rest);
      case _ =>
    }
  }

  lemma BoolText(v: JsonValue, rest: string)
    ensures var t := RenderValue(v) + rest;
      && ("true" <= t <==> v == Flag(true))
      && ("false" <= t <==> v == Flag(false))
  {
    var t := RenderValue(v) + rest;
    ValueStarts(v, rest);
    if v.Flag? {
      assert t[..|RenderValue(v)|] == RenderValue(v);
      assert "true"[0] == 't' && "false"[0] == 'f';
      assert t[0] == RenderValue(v)[0];
    }
  }

  // ---------- main results ----------

  /** On every object, whoever wrote it, the string extractor returns the string stored under
      the key with the escapes it knows undone, and "" for any other key, whatever text the
      values hold. */
  lemma ExtractStringReads(ms: seq<Member>, key: string)
    requires ValidMembers(ms) && KeyText(key)
    ensures ExtractString(Render(ms), key) ==
      match Lookup(ms, key) case Some(Text(units)) => Readout(units) case _ => ""
  {
    hide AfterFirst, Opening, Unescape, Print, Readout;
    FindMember('{', ms, key, "\"");
    var own := From(ms, key);
    if own != [] {
      var v, rest := own[0].value, Body(',', own[1..]);
      ValueStarts(v, rest);
      if v.Text? {
        assert (RenderValue(v) + rest)[1..] == Print(v.units) + "\"" + rest;
        UnescapePrinted(v.units, rest);
      }
    }
  }

  /** The int extractor returns the int stored under the key whenever it is in range, the
      default for an absent key, and 0 for a string or a bool. */
  lemma ExtractIntReads(ms: seq<Member>, key: string, defaultVal: int)
    requires ValidMembers(ms) && KeyText(key)
    ensures ExtractInt(Render(ms), key, defaultVal) ==
      match Lookup(ms, key) case Some(v) => AsInt(v) case None => Value(defaultVal)
  {
    hide AfterFirst, RenderValue, ScanSigned;
    assert Opening(key) + "" == Opening(key);
    hide Opening;
    FindMember('{', ms, key, "");
    var own := From(ms, key);
    if own != [] {
      var rest := Body(',', own[1..]);
      BodyStarts(',', own[1..]);
      ValueStarts(own[0].value, rest);
      ScanValue(own[0].value, rest);
    }
  }

  /** The bool extractor returns the bool stored under the key, and otherwise the default. */
  lemma ExtractBoolReads(ms: seq<Member>, key: string, defaultVal: bool)
    requires ValidMembers(ms) && KeyText(key)
    ensures ExtractBool(Render(ms), key, defaultVal) ==
      match Lookup(ms, key) case Some(Flag(b)) => b case _ => defaultVal
  {
    hide AfterFirst, RenderValue;
    assert Opening(key) + "" == Opening(key);
    hide Opening;
    FindMember('{', ms, key, "");
    var own := From(ms, key);
    if own != [] {
      var rest := Body(',', own[1..]);
      ValueStarts(own[0].value, rest);
      BoolText(own[0].value, rest);
    }
  }

  /** On an object whose values are all strings, as the settings are sent, no number and no
      switch is ever read: present or not, a key gives a constant. */
  lemma QuotedValuesIgnored(ms: seq<Member>, key: string, defaultInt: int, defaultBool: bool)
    requires ValidMembers(ms) && KeyText(key) && forall m <- ms :: m.value.Text?
    ensures var present := exists i :: 0 <= i < |ms| && ms[i].key == key;
      ExtractInt(Render(ms), key, defaultInt) == Value(if present then 0 else defaultInt)
    ensures ExtractBool(Render(ms), key, defaultBool) == defaultBool
  {
    hide Lookup, ValidMembers, KeyText, Render, ExtractInt, ExtractBool;
    LookupFinds(ms, key);
    ExtractIntReads(ms, key, defaultInt);
    ExtractBoolReads(ms, key, defaultBool);
  }

  // ---------- blanks behind the colon ----------

  lemma SameOccurrence(s: string, t: string, u: string, p: nat, search: string)
    requires p + |search| <= |s|
    ensures OccursAt(s + t, p, search) == OccursAt(s + u, p, search)
  {
    AfterFirstStep(s + t, p, search);
    AfterFirstStep(s + u, p, search);
    assert (s + t)[p..p + |search|] == s[p..p + |search|] == (s + u)[p..p + |search|];
  }

  /** The first occurrence of a text is the first one whatever comes behind it. */
  lemma FoundFirst(front: string, search: string, rest: string)
    requires search != "" && forall p: nat | p < |front| :: !OccursAt(front + search, p, search)
    ensures AfterFirst(front + search + rest, search) == Some(rest)
  {
    hide OccursAt;
    var s := front + search + rest;
    forall p: nat | p < |front|
      ensures !OccursAt(s, p, search)
    {
      SameOccurrence(front + search, rest, "", p, search);
      assert front + search + "" == front + search;
    }
    SkipTo(s, |front|, search);
    assert s[|front|..] == search + rest;
    AfterFirstStep(search + rest, 0, search);
    assert (search + rest)[0..] == search + rest && (search + rest)[|search|..] == rest;
    assert (search + rest)[0..|search|] == search;
  }

  lemma {:induction false} BlanksSkipped(blanks: string, u: string)
    requires forall c <- blanks :: c == ' ' || c == '\t'
    ensures SkipBlanks(blanks + u) == SkipBlanks(u)
  {
    if blanks == "" {
      assert blanks + u == u;
    } else {
      assert blanks[0] in blanks && (blanks + u)[1..] == blanks[1..] + u;
      assert forall c <- blanks[1..] :: c in blanks;
      BlanksSkipped(blanks[1..], u);
    }
  }

  /** Blanks and tabs between the colon of a key and its value change nothing for the readers
      of numbers and switches. */
  lemma BlanksIgnored(front: string, key: string, blanks: string, u: string, defaultInt: int, defaultBool: bool)
    requires forall p: nat | p < |front| :: !OccursAt(front + Opening(key), p, Opening(key))
    requires forall c <- blanks :: c == ' ' || c == '\t'
    ensures var spaced, plain := front + Opening(key) + (blanks + u), front + Opening(key) + u;
      && ExtractInt(spaced, key, defaultInt) == ExtractInt(plain, key, defaultInt)
      && ExtractBool(spaced, key, defaultBool) == ExtractBool(plain, key, defaultBool)
  {
    assert Opening(key)[0] == '\"';
    hide OccursAt, AfterFirst, Opening, SkipBlanks;
    FoundFirst(front, Opening(key), blanks + u);
    FoundFirst(front, Opening(key), u);
    BlanksSkipped(blanks, u);
  }

  // ---------- the status object ----------

  datatype TorrentStatus = TorrentStatus(
    infoHash: string, name: string, status: string, progressWhole: nat, progressFraction: string,
    downloaded: int, total: int, downloadSpeed: int, uploadSpeed: int, eta: int,
    peers: int, seeds: int, queuePosition: int)

  /** The info hash is hexadecimal and the status one of a few words: both are printed as they
      are. */
  predicate Printable(t: TorrentStatus) {
    && (forall i | 0 <= i < |t.infoHash| :: KeyChar(t.infoHash[i]))
    && (forall i | 0 <= i < |t.status| :: KeyChar(t.status[i]))
    && forall c <- t.progressFraction :: IsDigit(c)
  }

  function Concat(lines: seq<string>, i: nat): string
    requires i <= |lines|
    decreases |lines| - i
  {
    if i == |lines| then "" else lines[i] + Concat(lines, i + 1)
  }

  /** The lines of the format of nativeGetTorrentStatuses between its braces, filled in; %s
      prints a string up to its first NUL. */
  function StatusLines(t: TorrentStatus): seq<string> {
    [ "\"info_hash\":\"" + t.infoHash + "\",",
      "\"name\":\"" + CString(Escape(t.name)) + "\",",
      "\"status\":\"" + t.status + "\",",
      "\"progress\":" + (Digits(t.progressWhole) + "." + t.progressFraction) + ",",
      "\"downloaded_bytes\":" + IntToStr(t.downloaded) + ",",
      "\"total_bytes\":" + IntToStr(t.total) + ",",
      "\"download_speed\":" + IntToStr(t.downloadSpeed) + ",",
      "\"upload_speed\":" + IntToStr(t.uploadSpeed) + ",",
      "\"eta\":" + IntToStr(t.eta) + ",",
      "\"num_peers\":" + IntToStr(t.peers) + ",",
      "\"num_seeds\":" + IntToStr(t.seeds) + ",",
      "\"queue_position\":" + IntToStr(t.queuePosition) ]
  }

  function StatusText(t: TorrentStatus): string {
    "{" + Concat(StatusLines(t), 0) + "}"
  }

  /** The same object as members. */
  function StatusMembers(t: TorrentStatus): seq<Member> {
    [ Member("info_hash", Text(UnitsOf(t.infoHash))),
      Member("name", Text(UnitsOf(CString(t.name)))),
      Member("status", Text(UnitsOf(t.status))),
      Member("progress", Fixed(t.progressWhole, t.progressFraction)),
      Member("downloaded_bytes", Integer(t.downloaded)),
      Member("total_bytes", Integer(t.total)),
      Member("download_speed", Integer(t.downloadSpeed)),
      Member("upload_speed", Integer(t.uploadSpeed)),
      Member("eta", Integer(t.eta)),
      Member("num_peers", Integer(t.peers)),
      Member("num_seeds", Integer(t.seeds)),
      Member("queue_position", Integer(t.queuePosition)) ]
  }

  /** Text without special characters, such as the info hash and the status, is the same
      escaped or printed as it is. */
  lemma {:induction false} EscapePlain(raw: string)
    requires forall i | 0 <= i < |raw| :: KeyChar(raw[i])
    ensures Escape(raw) == raw
  {
    if raw != "" {
      assert EscapeChar(raw[0]) == [raw[0]];
      hide EscapeChar;
      EscapePlain(raw[1..]);
      assert raw == [raw[0]] + raw[1..];
    }
  }

  /** Escaping and cutting off at a NUL can change places. */
  lemma {:induction false} EscapeCString(raw: string)
    ensures CString(Escape(raw)) == Escape(CString(raw))
  {
    if raw != "" {
      NulIsNotEscaped(raw[0]);
      hide EscapeChar;
      EscapeCString(raw[1..]);
      if raw[0] != '\0' {
        CStringFront(EscapeChar(raw[0]), Escape(raw[1..]));
      }
    }
  }

  lemma NulIsNotEscaped(c: char)
    ensures if c == '\0' then EscapeChar(c) == "\0" else '\0' !in EscapeChar(c)
  {
  }

  lemma {:induction false} CStringFront(front: string, t: string)
    requires '\0' !in front
    ensures CString(front + t) == front + CString(t)
  {
    if front == "" {
      assert front + t == t;
    } else {
      var rest := front[1..];
      assert front[0] in front && front == [front[0]] + rest;
      CStringFront(rest, t);
      assert (front + t)[1..] == rest + t;
    }
  }

  lemma TextLine(head: string, key: string, raw: string)
    requires head == Opening(key) + "\""
    ensures head + Escape(raw) + "\"," == RenderMember(Member(key, Text(UnitsOf(raw)))) + ","
  {
    EscapeWrites(raw);
  }

  lemma TextLines(t: TorrentStatus)
    requires Printable(t)
    ensures forall i | 0 <= i < 3 :: StatusLines(t)[i] == RenderMember(StatusMembers(t)[i]) + ","
  {
    EscapePlain(t.infoHash);
    EscapePlain(t.status);
    EscapeCString(t.name);
    TextHeads();
    hide Escape, RenderMember, KeyChar, Opening;
    TextLine("\"info_hash\":\"", "info_hash", t.infoHash);
    TextLine("\"name\":\"", "name", CString(t.name));
    TextLine("\"status\":\"", "status", t.status);
  }

  lemma TextHeads()
    ensures "\"info_hash\":\"" == Opening("info_hash") + "\""
    ensures "\"name\":\"" == Opening("name") + "\""
    ensures "\"status\":\"" == Opening("status") + "\""
  {
  }

  lemma NumberHeads()
    ensures "\"progress\":" == Opening("progress")
    ensures "\"downloaded_bytes\":" == Opening("downloaded_bytes")
    ensures "\"total_bytes\":" == Opening("total_bytes")
    ensures "\"download_speed\":" == Opening("download_speed")
    ensures "\"upload_speed\":" == Opening("upload_speed")
  {
  }

  lemma MoreNumberHeads()
    ensures "\"eta\":" == Opening("eta")
    ensures "\"num_peers\":" == Opening("num_peers")
    ensures "\"num_seeds\":" == Opening("num_seeds")
    ensures "\"queue_position\":" == Opening("queue_position")
  {
  }

  lemma NumberLines(t: TorrentStatus)
    ensures forall i | 3 <= i < 12 ::
      StatusLines(t)[i] == RenderMember(StatusMembers(t)[i]) + if i < 11 then "," else ""
  {
    NumberHeads();
    MoreNumberHeads();
    hide Digits, IntToStr, Opening;
  }

  /** Lines that are members with a comma behind them, all but the last, make up an object. */
  lemma {:induction false} LinesRender(lines: seq<string>, ms: seq<Member>, i: nat, separator: char)
    requires i < |ms| == |lines|
    requires forall j | 0 <= j < |ms| :: lines[j] == RenderMember(ms[j]) + if j < |ms| - 1 then "," else ""
    ensures [separator] + Concat(lines, i) + "}" == Body(separator, ms[i..])
    decreases |ms| - i
  {
    hide RenderMember;
    assert ms[i..][0] == ms[i] && ms[i..][1..] == ms[i + 1..];
    if i < |ms| - 1 {
      LinesRender(lines, ms, i + 1, ',');
    } else {
      assert Body(',', ms[i + 1..]) == "}";
    }
  }

  /** The text of the format is the object of its members. */
  lemma StatusTextRenders(t: TorrentStatus)
    requires Printable(t)
    ensures StatusText(t) == Render(StatusMembers(t))
  {
    TextLines(t);
    NumberLines(t);
    hide RenderMember;
    LinesRender(StatusLines(t), StatusMembers(t), 0, '{');
    assert StatusMembers(t)[0..] == StatusMembers(t);
  }

  lemma StatusKeyTexts()
    ensures KeyText("info_hash") && KeyText("name") && KeyText("status") && KeyText("progress")
    ensures KeyText("downloaded_bytes") && KeyText("total_bytes")
  {
  }

  lemma MoreStatusKeyTexts()
    ensures KeyText("download_speed") && KeyText("upload_speed") && KeyText("eta")
    ensures KeyText("num_peers") && KeyText("num_seeds") && KeyText("queue_position")
  {
  }

  lemma StatusKeysDiffer(t: TorrentStatus)
    ensures forall i, j | 0 <= i < j < 12 :: StatusMembers(t)[i].key != StatusMembers(t)[j].key
  {
  }

  lemma StatusMembersValid(t: TorrentStatus)
    requires forall c <- t.progressFraction :: IsDigit(c)
    ensures ValidMembers(StatusMembers(t))
  {
    hide KeyText;
    StatusKeyTexts();
    MoreStatusKeyTexts();
    StatusKeysDiffer(t);
  }

  lemma StatusMemberReads(t: TorrentStatus, i: nat)
    requires Printable(t) && i < 12
    ensures var json, m := StatusText(t), StatusMembers(t)[i];
      && ExtractInt(json, m.key, 0) == AsInt(m.value)
      && ExtractString(json, m.key) == match m.value case Text(units) => Readout(units) case _ => ""
  {
    hide StatusText, Render, ExtractString, ExtractInt, ValidMembers, Readout, AsInt, KeyChar;
    StatusTextRenders(t);
    StatusMembersValid(t);
    MembersRead(StatusMembers(t), i);
  }

  /** What a number of the status reads back as. */
  function Fitting(n: int): IntResult {
    if -2147483647 <= n <= 2147483647 then Value(n) else Overflow
  }

  /** Whatever the torrent is called, its name cannot pass for another field: under its own key
      the printed text gives back every number that fits an int. */
  lemma StatusNumbersRead(t: TorrentStatus)
    requires Printable(t)
    ensures ExtractInt(StatusText(t), "progress", 0) == Fitting(t.progressWhole)
    ensures ExtractInt(StatusText(t), "downloaded_bytes", 0) == Fitting(t.downloaded)
    ensures ExtractInt(StatusText(t), "total_bytes", 0) == Fitting(t.total)
    ensures ExtractInt(StatusText(t), "download_speed", 0) == Fitting(t.downloadSpeed)
    ensures ExtractInt(StatusText(t), "upload_speed", 0) == Fitting(t.uploadSpeed)
    ensures ExtractInt(StatusText(t), "eta", 0) == Fitting(t.eta)
    ensures ExtractInt(StatusText(t), "num_peers", 0) == Fitting(t.peers)
    ensures ExtractInt(StatusText(t), "num_seeds", 0) == Fitting(t.seeds)
    ensures ExtractInt(StatusText(t), "queue_position", 0) == Fitting(t.queuePosition)
  {
    hide StatusText, ExtractInt, ExtractString, Readout, Printable;
    forall i: nat | 3 <= i < 12
      ensures ExtractInt(StatusText(t), StatusMembers(t)[i].key, 0) == AsInt(StatusMembers(t)[i].value)
    {
      StatusMemberReads(t, i);
    }
    var ms := StatusMembers(t);
    assert ms[3] == Member("progress", Fixed(t.progressWhole, t.progressFraction));
    assert ms[4] == Member("downloaded_bytes", Integer(t.downloaded));
    assert ms[5] == Member("total_bytes", Integer(t.total));
    assert ms[6] == Member("download_speed", Integer(t.downloadSpeed));
    assert ms[7] == Member("upload_speed", Integer(t.uploadSpeed));
    assert ms[8] == Member("eta", Integer(t.eta));
    assert ms[9] == Member("num_peers", Integer(t.peers));
    assert ms[10] == Member("num_seeds", Integer(t.seeds));
    assert ms[11] == Member("queue_position", Integer(t.queuePosition));
    hide StatusMembers;
  }

  /** So do the info hash and the status, and the name up to its first NUL and the escapes that
      the extractor does not know: it reads back if and only if it has no NUL, carriage return
      or tab. */
  lemma StatusReads(t: TorrentStatus)
    requires Printable(t)
    ensures ExtractString(StatusText(t), "info_hash") == t.infoHash
    ensures ExtractString(StatusText(t), "status") == t.status
    ensures ExtractString(StatusText(t), "name") == Readout(UnitsOf(CString(t.name)))
    ensures ExtractString(StatusText(t), "name") == t.name <==> forall c <- t.name :: c !in "\0\r\t"
  {
    hide StatusText, ExtractString, ExtractInt, Readout, UnitsOf, AsInt, KeyChar, CString;
    StatusMemberReads(t, 0);
    StatusMemberReads(t, 1);
    StatusMemberReads(t, 2);
    PlainReads(t.infoHash);
    PlainReads(t.status);
    NameReads(t.name);
  }

  lemma NameReads(name: string)
    ensures Readout(UnitsOf(CString(name))) == name <==> forall c <- name :: c !in "\0\r\t"
  {
    hide Readout, UnitsOf, CString;
    CStringExact(name);
    WrittenReads(CString(name));
    ReadoutKeepsNul(CString(name));
  }

  lemma {:induction false} ReadoutKeepsNul(raw: string)
    requires '\0' !in raw
    ensures '\0' !in Readout(UnitsOf(raw))
  {
    if raw != "" {
      ReadoutKeepsNul(raw[1..]);
      UnitWithoutNul(raw[0]);
      hide Known, UnitOf, Meaning, PrintUnit;
      assert UnitsOf(raw)[1..] == UnitsOf(raw[1..]);
    }
  }

  lemma UnitWithoutNul(c: char)
    requires c != '\0'
    ensures var u := UnitOf(c); '\0' !in if Known(u) then Meaning([u]) else PrintUnit(u)
  {
    assert [UnitOf(c)][1..] == [];
  }

  lemma PlainReads(raw: string)
    requires forall i | 0 <= i < |raw| :: KeyChar(raw[i])
    ensures Readout(UnitsOf(raw)) == raw
  {
    assert '\r' in raw ==> KeyChar('\r');
    assert '\t' in raw ==> KeyChar('\t');
    hide Readout, UnitsOf;
    WrittenReads(raw);
  }

  /** What the extractor reads of a string that the bridge wrote. */
  lemma WrittenReads(raw: string)
    ensures Readout(UnitsOf(raw)) == raw <==> '\r' !in raw && '\t' !in raw
  {
    UnescapePrinted(UnitsOf(raw), "");
    EscapeWrites(raw);
    LossyExact(raw, "");
  }

  lemma MembersRead(ms: seq<Member>, i: nat)
    requires ValidMembers(ms) && i < |ms|
    ensures ExtractString(Render(ms), ms[i].key) == match ms[i].value case Text(units) => Readout(units) case _ => ""
    ensures ExtractInt(Render(ms), ms[i].key, 0) == AsInt(ms[i].value)
  {
    LookupFinds(ms, ms[i].key);
    ExtractStringReads(ms, ms[i].key);
    ExtractIntReads(ms, ms[i].key, 0);
  }
}
