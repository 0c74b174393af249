/**
 The JSON helpers of the JNI bridge: the string escaper and the three field extractors,
 which search for a key by substring and never parse.
 */
module BridgeJson {
  import opened Decimal
  import opened Wrappers

  // ---------- what the helpers compute ----------

  function EscapeChar(c: char): string {
    match c
    case '\"' => "\\\""
    case '\\' => "\\\\"
    case '\n' => "\\n"
    case '\r' => "\\r"
    case '\t' => "\\t"
    case _ => [c]
  }

  function Escape(raw: string): string {
    if raw == "" then "" else EscapeChar(raw[0]) + Escape(raw[1..])
  }

  /** The text behind the first occurrence of search. */
  function AfterFirst(s: string, search: string): Option<string> {
    if search <= s then Some(s[|search|..])
    else if s == "" then None
    else AfterFirst(s[1..], search)
  }

  /** The string up to the closing quote, with the escapes the extractor knows undone. */
  function Unescape(t: string): string {
    if t == "" || t[0] == '\"' then ""
    else if t[0] == '\\' && |t| > 1 && t[1] in "\"\\n" then
      [if t[1] == 'n' then '\n' else t[1]] + Unescape(t[2..])
    else [t[0]] + Unescape(t[1..])
  }

  function SkipBlanks(t: string): string {
    if t != "" && t[0] in " \t" then SkipBlanks(t[1..]) else t
  }

  function ScanInt(t: string, acc: nat): IntResult {
    if t == "" || !IsDigit(t[0]) then Value(acc)
    else
      var next := acc * 10 + DigitValue(t[0]);
      if next > INT32_MAX then Overflow else ScanInt(t[1..], next)
  }

  function Negate(r: IntResult): IntResult {
    match r
    case Value(v) => Value(-v)
    case Overflow => Overflow
  }

  function ScanSigned(t: string): IntResult {
    if t != "" && t[0] == '-' then Negate(ScanInt(t[1..], 0)) else ScanInt(t, 0)
  }

  function Opening(key: string): string {
    "\"" + key + "\":"
  }

  function ExtractString(json: string, key: string): string {
    match AfterFirst(json, Opening(key) + "\"")
    case None => ""
    case Some(t) => Unescape(t)
  }

  function ExtractInt(json: string, key: string, defaultVal: int): IntResult {
    match AfterFirst(json, Opening(key))
    case None => Value(defaultVal)
    case Some(t) => ScanSigned(SkipBlanks(t))
  }

  function ExtractBool(json: string, key: string, defaultVal: bool): bool {
    match AfterFirst(json, Opening(key))
    case None => defaultVal
    case Some(t) =>
      var u := SkipBlanks(t);
      if "true" <= u then true else if "false" <= u then false else defaultVal
  }

  // ---------- the loops ----------

  method JsonEscape(raw: string) returns (out: string)
    ensures out == Escape(raw)
  {
    hide Escape;
    out := "";
    assert raw[0..] == raw;
    for i := 0 to |raw|
      invariant out + Escape(raw[i..]) == Escape(raw)
    {
      EscapeStep(raw, i, out);
      ghost var before := out;
      match raw[i] {
        case '\"' => out := out + "\\\"";
        case '\\' => out := out + "\\\\";
        case '\n' => out := out + "\\n";
        case '\r' => out := out + "\\r";
        case '\t' => out := out + "\\t";
        case c => out := out + [c];
      }
      assert out == before + EscapeChar(raw[i]);
    }
    EscapeEnd(raw[|raw|..]);
  }

  lemma EscapeStep(raw: string, i: nat, out: string)
    requires i < |raw|
    ensures out + Escape(raw[i..]) == out + EscapeChar(raw[i]) + Escape(raw[i + 1..])
  {
    hide EscapeChar;
    assert raw[i..][1..] == raw[i + 1..];
  }

  lemma EscapeEnd(t: string)
    requires t == ""
    ensures Escape(t) == ""
  {
  }

  /** Implies pos + |search| <= |s|. */
  predicate OccursAt(s: string, pos: nat, search: string) {
    pos <= |s| && search <= s[pos..]
  }

  lemma AfterFirstStep(s: string, pos: nat, search: string)
    requires pos <= |s|
    ensures OccursAt(s, pos, search) ==> AfterFirst(s[pos..], search) == Some(s[pos + |search|..])
    ensures !OccursAt(s, pos, search) ==>
      AfterFirst(s[pos..], search) == if pos == |s| then None else AfterFirst(s[pos + 1..], search)
    ensures OccursAt(s, pos, search) <==> pos + |search| <= |s| && s[pos..pos + |search|] == search
  {
    var t := s[pos..];
    if pos + |search| <= |s| {
      assert t[..|search|] == s[pos..pos + |search|] && t[|search|..] == s[pos + |search|..];
    }
    if pos < |s| {
      assert t[1..] == s[pos + 1..];
    }
  }

  /** std::string::find: the first occurrence, or -1 for npos. */
  method Find(s: string, search: string) returns (pos: int)
    ensures -1 <= pos
    ensures pos == -1 ==> forall p: nat | p <= |s| :: !OccursAt(s, p, search)
    ensures pos >= 0 ==> OccursAt(s, pos, search) && forall p: nat | p < pos :: !OccursAt(s, p, search)
    ensures AfterFirst(s, search) == if pos == -1 then None else Some(s[pos + |search|..])
  {
    hide OccursAt, AfterFirst;
    pos := 0;
    assert s[0..] == s;
    while pos <= |s|
      invariant 0 <= pos <= |s| + 1
      invariant forall p: nat | p < pos :: !OccursAt(s, p, search)
      invariant AfterFirst(s, search) == if pos <= |s| then AfterFirst(s[pos..], search) else None
    {
      AfterFirstStep(s, pos, search);
      if pos + |search| <= |s| && s[pos..pos + |search|] == search {
        return;
      }
      pos := pos + 1;
    }
    pos := -1;
  }

  /** Unescape read at a position instead of on a suffix. */
  lemma UnescapeStep(json: string, pos: nat)
    requires pos <= |json|
    ensures Unescape(json[pos..]) ==
      if pos == |json| || json[pos] == '\"' then ""
      else if json[pos] == '\\' && pos + 1 < |json| && json[pos + 1] in "\"\\n" then
        [if json[pos + 1] == 'n' then '\n' else json[pos + 1]] + Unescape(json[pos + 2..])
      else [json[pos]] + Unescape(json[pos + 1..])
  {
    var t := json[pos..];
    assert |t| > 0 ==> t[1..] == json[pos + 1..];
    assert |t| > 1 ==> t[2..] == json[pos + 2..];
  }

  lemma SearchText(key: string)
    ensures "\"" + key + "\":\"" == Opening(key) + "\""
  {
  }

  method JsonExtractString(json: string, key: string) returns (result: string)
    ensures result == ExtractString(json, key)
  {
    hide AfterFirst, Opening, Unescape, OccursAt;
    SearchText(key);
    var search := "\"" + key + "\":\"";
    var pos := Find(json, search);
    if pos == -1 { return ""; }
    assert pos + |search| <= |json| by { FoundInside(json, pos, search); }
    pos := pos + |search|;
    result := "";
    assert ExtractString(json, key) == Unescape(json[pos..]);
    hide ExtractString;
    while pos < |json| && json[pos] != '\"'
      invariant 0 <= pos <= |json|
      invariant result + Unescape(json[pos..]) == ExtractString(json, key)
    {
      UnescapeStep(json, pos);
      if json[pos] == '\\' && pos + 1 < |json| {
        if json[pos + 1] == '\"' { result := result + "\""; pos := pos + 2; continue; }
        if json[pos + 1] == '\\' { result := result + "\\"; pos := pos + 2; continue; }
        if json[pos + 1] == 'n' { result := result + "\n"; pos := pos + 2; continue; }
      }
      result := result + [json[pos]];
      pos := pos + 1;
    }
    UnescapeStep(json, pos);
  }

  lemma FoundInside(s: string, pos: nat, search: string)
    requires OccursAt(s, pos, search)
    ensures pos + |search| <= |s|
  {
  }

  method SkipBlanksFrom(json: string, start: nat) returns (pos: nat)
    requires start <= |json|
    ensures start <= pos <= |json| && json[pos..] == SkipBlanks(json[start..])
  {
    pos := start;
    while pos < |json| && (json[pos] == ' ' || json[pos] == '\t')
      invariant start <= pos <= |json|
      invariant SkipBlanks(json[pos..]) == SkipBlanks(json[start..])
    {
      assert json[pos..][1..] == json[pos + 1..];
      pos := pos + 1;
    }
  }

  method ScanDigitsFrom(json: string, start: nat) returns (r: IntResult)
    requires start <= |json|
    ensures r == ScanInt(json[start..], 0)
  {
    var pos, val := start, 0;
    while pos < |json| && '0' <= json[pos] <= '9'
      invariant start <= pos <= |json| && val >= 0
      invariant ScanInt(json[pos..], val) == ScanInt(json[start..], 0)
    {
      assert json[pos..][1..] == json[pos + 1..];
      val := val * 10 + (json[pos] as int - '0' as int);
      if val > INT32_MAX { return Overflow; }
      pos := pos + 1;
    }
    r := Value(val);
  }

  method JsonExtractInt(json: string, key: string, defaultVal: int) returns (r: IntResult)
    ensures r == ExtractInt(json, key, defaultVal)
  {
    hide AfterFirst, OccursAt, ScanInt, SkipBlanks;
    var search := "\"" + key + "\":";
    assert search == Opening(key);
    hide Opening;
    var pos := Find(json, search);
    if pos == -1 { return Value(defaultVal); }
    assert pos + |search| <= |json| by { FoundInside(json, pos, search); }
    pos := SkipBlanksFrom(json, pos + |search|);
    ghost var t := json[pos..];
    assert ExtractInt(json, key, defaultVal) == ScanSigned(t);
    hide ExtractInt;
    var negative := false;
    if pos < |json| && json[pos] == '-' {
      negative := true;
      pos := pos + 1;
      assert t[1..] == json[pos..];
    }
    assert ScanSigned(t) == if negative then Negate(ScanInt(json[pos..], 0)) else ScanInt(json[pos..], 0);
    hide ScanSigned;
    var magnitude := ScanDigitsFrom(json, pos);
    r := if negative then Negate(magnitude) else magnitude;
  }

  method JsonExtractBool(json: string, key: string, defaultVal: bool) returns (r: bool)
    ensures r == ExtractBool(json, key, defaultVal)
  {
    var search := "\"" + key + "\":";
    var pos := Find(json, search);
    if pos == -1 { return defaultVal; }
    pos := SkipBlanksFrom(json, pos + |search|);
    var rest := json[pos..];
    if "true" <= rest { return true; }
    if "false" <= rest { return false; }
    return defaultVal;
  }
}
