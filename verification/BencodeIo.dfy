/**
 The stream loops of bencode and bdecode. Input is a buffer followed by one readable NUL;
 an input iterator passed by reference is a position handed in and back. The output
 iterator appends to its container, as std::back_inserter does.
 */
module BencodeIo {
  import opened Decimal
  import opened Bencode

  class Output {
    var data: string

    constructor ()
      ensures data == ""
    {
      data := "";
    }

    method WriteChar(c: char)
      modifies this
      ensures data == old(data) + [c]
    {
      data := data + [c];
    }

    method WriteString(s: string) returns (count: nat)
      modifies this
      ensures data == old(data) + s && count == |s|
    {
      for i := 0 to |s|
        invariant data == old(data) + s[..i]
      {
        assert s[..i + 1] == s[..i] + [s[i]];
        data := data + [s[i]];
      }
      assert s[..|s|] == s;
      count := |s|;
    }

    method WriteInteger(i: int) returns (count: nat)
      modifies this
      ensures data == old(data) + IntToStr(i) && count == |IntToStr(i)|
    {
      count := WriteString(IntToStr(i));
    }

    /** Appends the text of e and returns the number of characters appended. */
    method BencodeRecursive(e: Entry) returns (ret: nat)
      modifies this
      ensures data == old(data) + Encode(e)
      ensures ret == |data| - |old(data)|
      ensures e.Preformatted? ==> data == old(data) + e.raw
      decreases e, 0
    {
      hide IntToStr, Digits, EncodeString, EncodeItems, EncodeFields;
      ret := 0;
      match e {
        case Int(i) =>
          WriteChar('i');
          var n := WriteInteger(i);
          WriteChar('e');
          ret := ret + n + 2;
        case Str(s) =>
          ret := WriteKey(s);
        case List(es) =>
          WriteChar('l');
          var n := WriteItems(es);
          WriteChar('e');
          ret := ret + n + 2;
        case Dict(fs) =>
          WriteChar('d');
          var n := WriteFields(fs);
          WriteChar('e');
          ret := ret + n + 2;
        case Preformatted(raw) =>
          data := data + raw;
          ret := ret + |raw|;
        case Undefined =>
          WriteChar('0');
          WriteChar(':');
          ret := ret + 2;
      }
    }

    /** The text of a string or a dictionary key. */
    method WriteKey(s: string) returns (ret: nat)
      modifies this
      ensures data == old(data) + EncodeString(s) && ret == |EncodeString(s)|
    {
      ret := WriteInteger(|s|);
      WriteChar(':');
      var n := WriteString(s);
      ret := ret + n + 1;
    }

    method WriteItems(es: seq<Entry>) returns (ret: nat)
      modifies this
      ensures data == old(data) + EncodeItems(es, 0)
      ensures ret == |data| - |old(data)|
      decreases es, |es|
    {
      hide Encode;
      ret := 0;
      for i := 0 to |es|
        invariant data + EncodeItems(es, i) == old(data) + EncodeItems(es, 0)
        invariant ret == |data| - |old(data)|
      {
        ghost var before := data;
        var n := BencodeRecursive(es[i]);
        assert data + EncodeItems(es, i + 1) == before + EncodeItems(es, i);
        ret := ret + n;
      }
    }

    method WriteFields(fs: seq<Field>) returns (ret: nat)
      modifies this
      ensures data == old(data) + EncodeFields(fs, 0)
      ensures ret == |data| - |old(data)|
      decreases fs, |fs|
    {
      hide Encode, EncodeString;
      ret := 0;
      for i := 0 to |fs|
        invariant data + EncodeFields(fs, i) == old(data) + EncodeFields(fs, 0)
        invariant ret == |data| - |old(data)|
      {
        NextField(fs, i, data);
        var n := WriteKey(fs[i].key);
        var m := BencodeRecursive(fs[i].value);
        ret := ret + n + m;
      }
    }
  }

  /** Writing field i moves it from the fields still to come to the text already written. */
  lemma NextField(fs: seq<Field>, i: nat, out: string)
    requires i < |fs|
    ensures out + EncodeFields(fs, i)
         == out + EncodeString(fs[i].key) + Encode(fs[i].value) + EncodeFields(fs, i + 1)
  {
  }

  method ReadUntil(s: string, start: nat, endToken: char) returns (ret: string, pos: nat, err: bool)
    requires start <= |s|
    ensures pos == Until(s, start, endToken) && ret == s[start..pos]
    ensures err <==> pos == |s|
  {
    ret, pos, err := "", start, false;
    if pos == |s| {
      return ret, pos, true;
    }
    while s[pos] != endToken
      invariant start <= pos < |s| && ret == s[start..pos]
      invariant Until(s, pos, endToken) == Until(s, start, endToken)
      decreases |s| - pos
    {
      ret := ret + [s[pos]];
      pos := pos + 1;
      if pos == |s| {
        return ret, pos, true;
      }
    }
  }

  method ReadString(s: string, start: nat, len: nat) returns (str: string, pos: nat, err: bool)
    requires start <= |s|
    ensures err <==> start + len > |s|
    ensures pos == if err then |s| else start + len
    ensures str == s[start..pos]
  {
    str, pos, err := "", start, false;
    for i := 0 to len
      invariant pos == start + i <= |s| && str == s[start..pos]
    {
      if pos == |s| {
        return str, pos, true;
      }
      str := str + [s[pos]];
      pos := pos + 1;
    }
  }

  function Budget(depth: nat): nat {
    if depth >= MAX_DEPTH then 0 else MAX_DEPTH - depth
  }

  /** How the decoder stands: its error flag is down, or up, or the length of a string has
      overflowed the int that atoi reads it into, and nothing is known any more. */
  datatype Status = Fine | Failed | Overflowed

  /** The outcome that a decoded entry, a position and a status stand for. */
  function Report(e: Entry, pos: nat, status: Status): Outcome {
    match status
    case Fine => Accepted(e, pos)
    case Failed => Rejected(pos)
    case Overflowed => Overflown(pos)
  }

  method BdecodeRecursive(s: string, start: nat, depth: nat) returns (ret: Entry, pos: nat, status: Status)
    requires start <= |s|
    ensures Report(ret, pos, status) == Decode(s, start, Budget(depth), INT32_MAX)
    decreases |s| - start, 0
  {
    ret, pos, status := Undefined, start, Fine;
    if depth >= MAX_DEPTH {
      return ret, pos, Failed;
    }
    if pos == |s| {
      return ret, pos, Failed;
    }
    var err: bool;
    match s[pos] {
      case 'i' =>
        var val: string;
        val, pos, err := ReadUntil(s, pos + 1, 'e');
        if err { return ret, pos, Failed; }
        pos := pos + 1;
        var parsed := Strtoll(val);
        if parsed.NoDigits? {
          return Int(0), pos, Failed;
        }
        ret := Int(parsed.value);
      case 'l' =>
        ret, pos, status := ListLoop(s, pos + 1, depth);
      case 'd' =>
        ret, pos, status := DictLoop(s, pos + 1, depth);
      case _ =>
        if IsDigit(s[pos]) {
          var lenText: string;
          lenText, pos, err := ReadUntil(s, pos, ':');
          if err { return ret, pos, Failed; }
          pos := pos + 1;
          var len := Atoi(lenText, INT32_MAX);
          if len.Overflow? { return ret, pos, Overflowed; }
          var str: string;
          str, pos, err := ReadString(s, pos, len.v);
          ret := Str(str);
          if err { return ret, pos, Failed; }
        } else {
          status := Failed;
        }
    }
  }

  /** What *in yields at pos: the NUL after the buffer, at its end. */
  function Peek(s: string, pos: nat): char
    requires pos <= |s|
  {
    if pos < |s| then s[pos] else '\0'
  }

  method ListLoop(s: string, start: nat, depth: nat) returns (ret: Entry, pos: nat, status: Status)
    requires start <= |s| && depth < MAX_DEPTH
    ensures Report(ret, pos, status) == DecodeItems(s, start, Budget(depth), INT32_MAX, [])
    decreases |s| - start, 1
  {
    ret, pos, status := List([]), start, Fine;
    ghost var budget, max := Budget(depth), INT32_MAX;
    while Peek(s, pos) != 'e'
      invariant start <= pos <= |s| && ret.List? && status == Fine
      invariant DecodeItems(s, pos, budget, max, ret.items) == DecodeItems(s, start, budget, max, [])
      decreases |s| - pos
    {
      var e: Entry;
      e, pos, status := BdecodeRecursive(s, pos, depth + 1);
      if status != Fine { return; }
      ret := List(ret.items + [e]);
      if pos == |s| {
        return ret, pos, Failed;
      }
    }
    pos := pos + 1;
  }

  method DictLoop(s: string, start: nat, depth: nat) returns (ret: Entry, pos: nat, status: Status)
    requires start <= |s| && depth < MAX_DEPTH
    ensures Report(ret, pos, status) == DecodeFields(s, start, Budget(depth), INT32_MAX, [])
    decreases |s| - start, 1
  {
    ret, pos, status := Dict([]), start, Fine;
    ghost var budget, max := Budget(depth), INT32_MAX;
    while Peek(s, pos) != 'e'
      invariant start <= pos <= |s| && ret.Dict? && status == Fine
      invariant DecodeFields(s, pos, budget, max, ret.fields) == DecodeFields(s, start, budget, max, [])
      decreases |s| - pos
    {
      var key: Entry, value: Entry;
      key, pos, status := BdecodeRecursive(s, pos, depth + 1);
      if status != Fine || !key.Str? { return; }
      value, pos, status := BdecodeRecursive(s, pos, depth + 1);
      if status != Fine { return; }
      ret := Dict(Put(ret.fields, key.text, value));
      if pos == |s| {
        return ret, pos, Failed;
      }
    }
    pos := pos + 1;
  }

  /** bdecode: the entry decoded at the front of s, or an undefined entry after an error; and
      the number of characters consumed. */
  method Bdecode(s: string) returns (e: Entry, len: nat, overflowed: bool)
    ensures overflowed <==> Decode(s, 0, MAX_DEPTH, INT32_MAX).Overflown?
    ensures !overflowed ==>
      && len == Decode(s, 0, MAX_DEPTH, INT32_MAX).pos <= |s|
      && e == match Decode(s, 0, MAX_DEPTH, INT32_MAX) case Accepted(r, _) => r case _ => Undefined
  {
    var status: Status;
    e, len, status := BdecodeRecursive(s, 0, 0);
    if status == Failed {
      e := Undefined;
    }
    overflowed := status == Overflowed;
  }
}
