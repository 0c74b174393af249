/**
 The texts of strings in JSON objects, whoever wrote them: which string such a text means, and
 what the extractor's loop makes of it. They are those of section 7 of RFC 8259, and a few
 more: a control character may also stand for itself, because the bridge's escaper prints
 most of them so. JsonString tells the texts of RFC 8259 apart.
 */
module JsonTexts {
  import opened BridgeJson

  /** A character that may stand for itself. */
  type PlainChar = c: char | c != '\"' && c != '\\' witness 'a'

  /** The characters that may follow a backslash alone. */
  type Letter = c: char | c in "\"\\/bfnrt" witness 'n'

  /** A character of a string as a writer prints it: as it is, as a two-character escape, or by
      a code of four hexadecimal digits. */
  datatype Unit = Plain(plain: PlainChar) | Escaped(letter: Letter) | Coded(code: seq<PlainChar>, c: char)

  function PrintUnit(u: Unit): string {
    match u
    case Plain(c) => [c]
    case Escaped(letter) => ['\\', letter]
    case Coded(code, _) => "\\u" + code
  }

  function Print(units: seq<Unit>): string {
    if units == [] then "" else PrintUnit(units[0]) + Print(units[1..])
  }

  function MeantBy(u: Unit): char {
    match u
    case Plain(c) => c
    case Escaped('b') => 8 as char
    case Escaped('f') => 12 as char
    case Escaped('n') => '\n'
    case Escaped('r') => '\r'
    case Escaped('t') => '\t'
    case Escaped(c) => c
    case Coded(_, c) => c
  }

  /** The string that a text means. */
  function Meaning(units: seq<Unit>): (s: string)
    ensures |s| == |units|
  {
    if units == [] then ""
    else [MeantBy(units[0])] + Meaning(units[1..])
  }

  /** The escapes that the extractor undoes. */
  predicate Known(u: Unit) {
    u.Plain? || (u.Escaped? && u.letter in "\"\\n")
  }

  /** What the extractor reads: an escape it does not know stays as it is printed. */
  function Readout(units: seq<Unit>): string {
    if units == [] then ""
    else (if Known(units[0]) then Meaning([units[0]]) else PrintUnit(units[0])) + Readout(units[1..])
  }

  /** The extractor gives the string that was meant if and only if it knows every escape in it;
      otherwise what it gives is longer. */
  lemma {:induction false} ReadoutExact(units: seq<Unit>)
    ensures |Readout(units)| >= |units|
    ensures Readout(units) == Meaning(units) <==> forall i | 0 <= i < |units| :: Known(units[i])
    ensures Readout(units) == Meaning(units) <==> |Readout(units)| == |units|
  {
    if units != [] {
      ReadoutExact(units[1..]);
      assert units[..1] == [units[0]];
      assert forall i | 0 <= i < |units[1..]| :: units[1..][i] == units[i + 1];
      assert Meaning([units[0]]) + Meaning(units[1..]) == Meaning(units);
    }
  }

  /** Inside a string's text every quote has a backslash before it. */
  lemma {:induction false} QuotesAreEscaped(units: seq<Unit>, i: nat)
    requires i < |Print(units)| && Print(units)[i] == '\"'
    ensures i > 0 && Print(units)[i - 1] == '\\'
  {
    var head := PrintUnit(units[0]);
    assert Print(units) == head + Print(units[1..]);
    if i >= |head| {
      QuotesAreEscaped(units[1..], i - |head|);
    }
  }

  lemma {:induction false} UnescapePlain(text: seq<PlainChar>, t: string)
    ensures Unescape(text + t) == text + Unescape(t)
  {
    if text == [] {
      assert text + t == t;
    } else {
      assert (text + t)[1..] == text[1..] + t;
      UnescapePlain(text[1..], t);
    }
  }

  /** An escape that the extractor does not know: the backslash and what follows it stay. */
  lemma UnescapeUnknown(text: seq<PlainChar>, t: string)
    requires text != [] && text[0] != 'n'
    ensures Unescape("\\" + text + t) == "\\" + text + Unescape(t)
  {
    var s := "\\" + text + t;
    assert s[1] == text[0] && s[1..] == text + t;
    assert Unescape(s) == "\\" + Unescape(text + t);
    hide Unescape;
    UnescapePlain(text, t);
  }

  lemma UnescapeKnown(letter: Letter, t: string)
    requires letter in "\"\\n"
    ensures Unescape(['\\', letter] + t) == [MeantBy(Escaped(letter))] + Unescape(t)
  {
    assert (['\\', letter] + t)[2..] == t;
  }

  lemma UnescapeUnit(u: Unit, t: string)
    ensures Unescape(PrintUnit(u) + t) == (if Known(u) then Meaning([u]) else PrintUnit(u)) + Unescape(t)
  {
    hide Unescape;
    assert [u][1..] == [];
    match u {
      case Plain(plain) => UnescapePlain([plain], t);
      case Escaped(letter) =>
        if Known(u) {
          UnescapeKnown(letter, t);
        } else {
          assert PrintUnit(u) == "\\" + [letter];
          UnescapeUnknown([letter], t);
        }
      case Coded(code, _) =>
        assert PrintUnit(u) == "\\" + (['u'] + code);
        UnescapeUnknown(['u'] + code, t);
    }
  }

  lemma {:induction false} UnescapeUnits(units: seq<Unit>, tail: string)
    requires tail == "" || tail[0] == '\"'
    ensures Unescape(Print(units) + tail) == Readout(units)
  {
    if units == [] {
      assert Print(units) + tail == tail;
    } else {
      hide Unescape;
      var t := Print(units[1..]) + tail;
      assert Print(units) + tail == PrintUnit(units[0]) + t;
      UnescapeUnits(units[1..], tail);
      UnescapeUnit(units[0], t);
    }
  }

  /** The extractor's loop reads a string's text up to its closing quote and no further; a text
      without one it reads to the end. */
  lemma UnescapePrinted(units: seq<Unit>, rest: string)
    ensures Unescape(Print(units) + "\"" + rest) == Readout(units)
    ensures Unescape(Print(units)) == Readout(units)
  {
    hide Unescape;
    UnescapeUnits(units, "\"" + rest);
    UnescapeUnits(units, "");
    assert Print(units) + "\"" + rest == Print(units) + ("\"" + rest);
    assert Print(units) + "" == Print(units);
  }

  // ---------- the bridge as a writer ----------

  function UnitOf(c: char): Unit {
    match c
    case '\"' => Escaped('\"')
    case '\\' => Escaped('\\')
    case '\n' => Escaped('n')
    case '\r' => Escaped('r')
    case '\t' => Escaped('t')
    case c => Plain(c)
  }

  function UnitsOf(raw: string): seq<Unit> {
    seq(|raw|, i requires 0 <= i < |raw| => UnitOf(raw[i]))
  }

  lemma UnitWrites(c: char)
    ensures PrintUnit(UnitOf(c)) == EscapeChar(c) && MeantBy(UnitOf(c)) == c
    ensures Known(UnitOf(c)) <==> c !in "\r\t"
  {
  }

  /** What jsonEscape writes means its argument. */
  lemma {:induction false} EscapeWrites(raw: string)
    ensures Print(UnitsOf(raw)) == Escape(raw) && Meaning(UnitsOf(raw)) == raw
  {
    hide UnitOf, MeantBy, PrintUnit, EscapeChar;
    if raw != "" {
      EscapeWrites(raw[1..]);
      UnitWrites(raw[0]);
      assert UnitsOf(raw)[1..] == UnitsOf(raw[1..]);
      assert raw == [raw[0]] + raw[1..];
    }
  }

  predicate HexDigit(c: char) {
    '0' <= c <= '9' || 'a' <= c <= 'f' || 'A' <= c <= 'F'
  }

  /** RFC 8259: no control character stands for itself, and a code has four digits. */
  predicate StrictUnit(u: Unit) {
    match u
    case Plain(c) => c >= ' '
    case Escaped(_) => true
    case Coded(code, _) => |code| == 4 && forall c <- code :: HexDigit(c)
  }

  /** The text between the quotes of a string of RFC 8259. */
  ghost predicate JsonString(text: string) {
    exists units :: Print(units) == text && forall u <- units :: StrictUnit(u)
  }

  lemma {:induction false} StrictPrints(units: seq<Unit>)
    requires forall u <- units :: StrictUnit(u)
    ensures forall c <- Print(units) :: c >= ' '
  {
    if units != [] {
      assert units[0] in units;
      StrictPrints(units[1..]);
    }
  }

  lemma {:induction false} EscapeKeeps(raw: string, c: char)
    requires c in raw && c < ' ' && c !in "\n\r\t"
    ensures c in Escape(raw)
  {
    if raw[0] == c {
      assert EscapeChar(c) == [c];
    } else {
      EscapeKeeps(raw[1..], c);
    }
  }

  lemma UnitsStrict(raw: string)
    requires forall c <- raw :: c >= ' ' || c in "\n\r\t"
    ensures forall u <- UnitsOf(raw) :: StrictUnit(u)
  {
    forall i | 0 <= i < |raw|
      ensures StrictUnit(UnitOf(raw[i]))
    {
      assert raw[i] in raw;
    }
  }

  lemma StrictHasNoControls(text: string)
    requires JsonString(text)
    ensures forall c <- text :: c >= ' '
  {
    var units :| Print(units) == text && forall u <- units :: StrictUnit(u);
    StrictPrints(units);
  }

  /** jsonEscape writes a JSON string if and only if its argument has no control character but
      line feeds, carriage returns and tabs. */
  lemma EscapeStrict(raw: string)
    ensures JsonString(Escape(raw)) <==> forall c <- raw :: c >= ' ' || c in "\n\r\t"
  {
    hide Print, Escape, UnitsOf, StrictUnit;
    if forall c <- raw :: c >= ' ' || c in "\n\r\t" {
      EscapeWrites(raw);
      UnitsStrict(raw);
    } else {
      var c :| c in raw && c < ' ' && c !in "\n\r\t";
      EscapeKeeps(raw, c);
      if JsonString(Escape(raw)) {
        StrictHasNoControls(Escape(raw));
      }
    }
  }

  /** A string comes back through the bridge's escaper and extractor if and only if it has
      neither a carriage return nor a tab. */
  lemma LossyExact(raw: string, rest: string)
    ensures Unescape(Escape(raw) + "\"" + rest) == raw <==> '\r' !in raw && '\t' !in raw
  {
    hide Unescape, Escape, UnitOf, Known, Print, Meaning, Readout;
    var units := UnitsOf(raw);
    EscapeWrites(raw);
    UnescapePrinted(units, rest);
    ReadoutExact(units);
    forall i | 0 <= i < |raw|
      ensures Known(units[i]) <==> raw[i] != '\r' && raw[i] != '\t'
    {
      UnitWrites(raw[i]);
    }
  }
}
