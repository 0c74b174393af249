/**
 Framing of peer messages: send_message appends a length, a type byte and 32-bit arguments
 to the send buffer.
 */
module PeerMessages {
  import opened BigEndian
  import opened Wrappers

  datatype Message = Message(kind: Byte, args: seq<int>)

  /** The length byte of the frame is a char, so a message has at most 31 arguments. */
  const MAX_ARGS := 31

  predicate Sendable(m: Message) {
    |m.args| <= 31 && forall i | 0 <= i < |m.args| :: Fits(m.args[i], 4, true)
  }

  /** The bytes of the arguments from index i on. */
  function ArgBytes(args: seq<int>, i: nat): (r: seq<Byte>)
    requires i <= |args|
    ensures |r| == 4 * (|args| - i)
    decreases |args| - i
  {
    if i == |args| then [] else Written(args[i], 4) + ArgBytes(args, i + 1)
  }

  function Frame(m: Message): (r: seq<Byte>)
    requires |m.args| <= MAX_ARGS
    ensures |r| == 5 + 4 * |m.args|
  {
    [0, 0, 0, 1 + 4 * |m.args|, m.kind] + ArgBytes(m.args, 0)
  }

  predicate AllSendable(ms: seq<Message>) {
    forall i | 0 <= i < |ms| :: Sendable(ms[i])
  }

  function Frames(ms: seq<Message>): seq<Byte>
    requires AllSendable(ms)
  {
    if ms == [] then [] else Frame(ms[0]) + Frames(ms[1..])
  }

  class Connection {
    var sendBuffer: seq<Byte>

    constructor ()
      ensures sendBuffer == []
    {
      sendBuffer := [];
    }

    method SendMessage(m: Message)
      requires |m.args| <= 31
      modifies this
      ensures sendBuffer == old(sendBuffer) + Frame(m)
    {
      hide Written;
      var msg := new Byte[5 + 4 * |m.args|];
      msg[0], msg[1], msg[2], msg[3], msg[4] := 0, 0, 0, 1 + 4 * |m.args|, m.kind;
      var ptr := 5;
      assert msg[..ptr] == [0, 0, 0, 1 + 4 * |m.args|, m.kind];
      assert msg[..ptr] + ArgBytes(m.args, 0) == Frame(m);
      for i := 0 to |m.args|
        invariant ptr == 5 + 4 * i && sendBuffer == old(sendBuffer)
        invariant msg[..ptr] + ArgBytes(m.args, i) == Frame(m)
      {
        ghost var before := msg[..ptr];
        ptr := WriteInt32(m.args[i], msg, ptr);
        assert before + (Written(m.args[i], 4) + ArgBytes(m.args, i + 1)) == msg[..ptr] + ArgBytes(m.args, i + 1);
      }
      assert msg[..ptr] == msg[..] == Frame(m);
      sendBuffer := sendBuffer + msg[..];
    }
  }

  /** write_int32 through an advancing pointer. */
  method WriteInt32(val: int, msg: array<Byte>, ptr: nat) returns (next: nat)
    requires ptr + 4 <= msg.Length
    modifies msg
    ensures next == ptr + 4
    ensures msg[..next] == old(msg[..ptr]) + Written(val, 4) && msg[next..] == old(msg[next..])
  {
    next := ptr;
    var i := 4;
    assert Written(Shift(val, i), 0) == [];
    while i > 0
      invariant 0 <= i <= 4 && next == ptr + 4 - i
      invariant msg[..next] == old(msg[..ptr]) + Written(Shift(val, i), 4 - i)
      invariant msg[ptr + 4..] == old(msg[ptr + 4..])
    {
      i := i - 1;
      ShiftNext(val, i);
      ghost var before := msg[..next];
      msg[next] := Shift(val, i) % 256;
      next := next + 1;
      assert msg[..next] == before + [Shift(val, i) % 256];
    }
  }

  // ---------- reading the stream back ----------

  /** The 32-bit arguments in a message body. */
  function ReadArgs(body: seq<Byte>): Option<seq<int>>
    decreases |body|
  {
    if body == [] then Some([])
    else if |body| < 4 then None
    else match ReadArgs(body[4..])
      case None => None
      case Some(rest) => Some([ReadValue(body[..4], true)] + rest)
  }

  /** Splits a stream by the length prefixes of its messages. */
  function Split(stream: seq<Byte>): Option<seq<Message>>
    decreases |stream|
  {
    if stream == [] then Some([])
    else if |stream| < 5 then None
    else
      var len := ReadValue(stream[..4], false);
      if len < 1 || |stream| < 4 + len then None
      else match (ReadArgs(stream[5..4 + len]), Split(stream[4 + len..]))
        case (Some(args), Some(rest)) => Some([Message(stream[4], args)] + rest)
        case _ => None
  }

  lemma {:induction false} ArgsReadBack(args: seq<int>, i: nat)
    requires i <= |args| && forall j | 0 <= j < |args| :: Fits(args[j], 4, true)
    ensures ReadArgs(ArgBytes(args, i)) == Some(args[i..])
    decreases |args| - i
  {
    hide Written, ReadValue, Fits;
    if i < |args| {
      var body := ArgBytes(args, i);
      assert body[..4] == Written(args[i], 4) && body[4..] == ArgBytes(args, i + 1);
      ReadWritten(args[i], 4, true);
      ArgsReadBack(args, i + 1);
      assert [args[i]] + args[i + 1..] == args[i..];
    }
  }

  lemma LengthReadBack(n: Byte)
    ensures ReadValue([0, 0, 0, n], false) == n
  {
    assert [0, 0, 0, n][..3] == [0, 0, 0] && [0, 0, 0][..2] == [0, 0] && [0, 0][..1] == [0] && [0][..0] == [];
    assert Value([0]) == 0 && Value([0, 0]) == 0 && Value([0, 0, 0]) == 0;
  }

  lemma FrontFrame(m: Message, tail: seq<Byte>)
    requires |m.args| <= MAX_ARGS
    ensures var stream, len := Frame(m) + tail, 1 + 4 * |m.args|;
      && stream[..4] == [0, 0, 0, len] && stream[4] == m.kind
      && stream[5..4 + len] == ArgBytes(m.args, 0) && stream[4 + len..] == tail
  {
    hide ArgBytes;
  }

  /** Any sequence of messages sent splits back, in order, into the same types and arguments. */
  lemma {:induction false} FramesSplitBack(ms: seq<Message>)
    requires AllSendable(ms)
    ensures Split(Frames(ms)) == Some(ms)
  {
    if ms != [] {
      hide ReadValue, ReadArgs, ArgBytes, Frame;
      var m := ms[0];
      FrontFrame(m, Frames(ms[1..]));
      LengthReadBack(1 + 4 * |m.args|);
      ArgsReadBack(m.args, 0);
      assert m.args[0..] == m.args;
      FramesSplitBack(ms[1..]);
      assert [Message(m.kind, m.args)] + ms[1..] == ms;
    }
  }

  /** So two different message sequences are never sent as the same bytes. */
  lemma FramesDiffer(ms: seq<Message>, ns: seq<Message>)
    requires AllSendable(ms) && AllSendable(ns) && Frames(ms) == Frames(ns)
    ensures ms == ns
  {
    FramesSplitBack(ms);
    FramesSplitBack(ns);
  }

  /** Sending any sequence of messages appends their frames, from which they split back. */
  method SendAll(c: Connection, ms: seq<Message>)
    requires AllSendable(ms)
    modifies c
    ensures c.sendBuffer == old(c.sendBuffer) + Frames(ms)
    ensures old(c.sendBuffer) == [] ==> Split(c.sendBuffer) == Some(ms)
  {
    hide Frame, Split;
    for n := 0 to |ms|
      invariant c.sendBuffer + Frames(ms[n..]) == old(c.sendBuffer) + Frames(ms)
    {
      assert ms[n..][0] == ms[n] && ms[n..][1..] == ms[n + 1..];
      ghost var before := c.sendBuffer;
      c.SendMessage(ms[n]);
      assert c.sendBuffer + Frames(ms[n + 1..]) == before + (Frame(ms[n]) + Frames(ms[n + 1..]));
    }
    FramesSplitBack(ms);
    assert [] + Frames(ms) == Frames(ms);
  }
}
