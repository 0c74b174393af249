/**
 The I2P SAM stream: one asynchronous connect, as a state machine over its callbacks. Every
 callback either schedules one more operation with the handler or calls the handler.
 */
module I2pStreams {
  import opened CStrings

  datatype Error =
    | NoError | SystemError | ParseFailed | CantReachPeer | I2pError | InvalidKey
    | InvalidId | Timeout | KeyNotFound | DuplicatedId | UnknownError

  datatype Command = CmdNone | CreateSession | Connect | Accept | NameLookup | Incoming

  datatype Response = Hello | ConnectStatus | AcceptStatus | SessionStatus | NamingReply

  /** A reply line, split: its two leading words and the name=value pairs before the first
      one that does not parse. */
  datatype Reply = Reply(first: string, second: string, pairs: seq<(string, string)>, wellFormed: bool)

  /** The operation that holds the handler. */
  datatype Pending = Idle | Resolving | Connecting | Writing | Reading

  datatype Event =
    | Resolved(e: Error, noAddress: bool)
    | Connected(e: Error)
    | Written(e: Error)
    | ByteRead(e: Error, c: char, reply: Reply)

  /** The stream, with a record of requests sent, replies accepted, whether the line of an
      incoming connection was read, and handler calls made. */
  datatype State = State(
    command: Command, state: Response, buffer: string, dest: string, nameLookup: string,
    pending: Pending, open: bool,
    sent: seq<Response>, accepted: seq<Response>, gotDestination: bool, calls: seq<Error>)

  // ---------- what one callback does ----------

  function Call(s: State, e: Error): State {
    s.(pending := Idle, calls := s.calls + [e])
  }

  /** handle_error: call the handler and close the socket. */
  function Fail(s: State, e: Error): State {
    Call(s, e).(open := false)
  }

  function Send(s: State, r: Response): State {
    s.(state := r, pending := Writing, sent := s.sent + [r])
  }

  /** set_name_lookup and send_name_lookup. */
  function SendLookup(s: State, name: string): State {
    Send(s.(nameLookup := CString(name)), NamingReply)
  }

  function ExpectedWords(r: Response): (string, string) {
    match r
    case Hello => ("HELLO", "REPLY")
    case ConnectStatus => ("STREAM", "STATUS")
    case AcceptStatus => ("STREAM", "STATUS")
    case SessionStatus => ("SESSION", "STATUS")
    case NamingReply => ("NAMING", "REPLY")
  }

  function ResultCode(value: string): Error {
    if value == "OK" then NoError
    else if value == "CANT_REACH_PEER" then CantReachPeer
    else if value == "I2P_ERROR" then I2pError
    else if value == "INVALID_KEY" then InvalidKey
    else if value == "INVALID_ID" then InvalidId
    else if value == "TIMEOUT" then Timeout
    else if value == "KEY_NOT_FOUND" then KeyNotFound
    else if value == "DUPLICATED_ID" then DuplicatedId
    else UnknownError
  }

  /** The last value given for a name, or the value before. */
  function LastValue(pairs: seq<(string, string)>, name: string, before: string): string {
    if pairs == [] then before
    else LastValue(pairs[1..], name, if pairs[0].0 == name then pairs[0].1 else before)
  }

  /** The result of a reply: the last RESULT, and no error without one. */
  function Result(reply: Reply): Error {
    ResultCode(LastValue(reply.pairs, "RESULT", "OK"))
  }

  /** Pair i is the last one with this name. */
  predicate LastNamed(pairs: seq<(string, string)>, name: string, i: nat) {
    i < |pairs| && pairs[i].0 == name && forall j | i < j < |pairs| :: pairs[j].0 != name
  }

  lemma {:induction false} LastValueExact(pairs: seq<(string, string)>, name: string, before: string)
    ensures forall i: nat :: LastNamed(pairs, name, i) ==> LastValue(pairs, name, before) == pairs[i].1
    ensures (forall i: nat :: !LastNamed(pairs, name, i)) <==> forall i | 0 <= i < |pairs| :: pairs[i].0 != name
    ensures (forall i: nat :: !LastNamed(pairs, name, i)) ==> LastValue(pairs, name, before) == before
  {
    if pairs != [] {
      var rest := pairs[1..];
      LastValueExact(rest, name, if pairs[0].0 == name then pairs[0].1 else before);
      assert forall i: nat | i > 0 :: LastNamed(pairs, name, i) <==> LastNamed(rest, name, i - 1);
      assert forall i | 0 <= i < |rest| :: rest[i] == pairs[i + 1];
      if i: nat :| LastNamed(rest, name, i) {
        assert LastNamed(pairs, name, i + 1);
      } else if pairs[0].0 == name {
        assert LastNamed(pairs, name, 0);
      }
    }
  }

  /** Which error each value of RESULT stands for. */
  predicate Means(value: string, e: Error) {
    match e
    case NoError => value == "OK"
    case CantReachPeer => value == "CANT_REACH_PEER"
    case I2pError => value == "I2P_ERROR"
    case InvalidKey => value == "INVALID_KEY"
    case InvalidId => value == "INVALID_ID"
    case Timeout => value == "TIMEOUT"
    case KeyNotFound => value == "KEY_NOT_FOUND"
    case DuplicatedId => value == "DUPLICATED_ID"
    case UnknownError =>
      && value != "OK" && value != "CANT_REACH_PEER" && value != "I2P_ERROR" && value != "INVALID_KEY"
      && value != "INVALID_ID" && value != "TIMEOUT" && value != "KEY_NOT_FOUND" && value != "DUPLICATED_ID"
    case _ => false
  }

  /** What a reply says: the meaning of its last RESULT, and no error without one. */
  ghost predicate Tells(reply: Reply, e: Error) {
    && (forall i: nat :: LastNamed(reply.pairs, "RESULT", i) ==> Means(reply.pairs[i].1, e))
    && ((forall i: nat :: !LastNamed(reply.pairs, "RESULT", i)) ==> e == NoError)
  }

  lemma CodeExact(value: string, e: Error)
    ensures Means(value, e) <==> e == ResultCode(value)
  {
    assert "OK"[0] == 'O' && "CANT_REACH_PEER"[0] == 'C' && "TIMEOUT"[0] == 'T' && "KEY_NOT_FOUND"[0] == 'K';
    assert "DUPLICATED_ID"[0] == 'D' && |"I2P_ERROR"| == 9 && |"INVALID_KEY"| == 11 && |"INVALID_ID"| == 10;
  }

  /** The result that the code computes is the one the reply tells. */
  lemma ResultExact(reply: Reply, e: Error)
    ensures Tells(reply, e) <==> e == Result(reply)
  {
    hide ResultCode, Means, LastValue;
    LastValueExact(reply.pairs, "RESULT", "OK");
    CodeExact("OK", NoError);
    assert ResultCode("OK") == NoError by { OkIsNoError(); }
    forall i: nat | LastNamed(reply.pairs, "RESULT", i)
      ensures Means(reply.pairs[i].1, e) <==> e == ResultCode(reply.pairs[i].1)
    {
      CodeExact(reply.pairs[i].1, e);
    }
  }

  lemma OkIsNoError()
    ensures ResultCode("OK") == NoError
  {
  }

  function Assigned(s: State, reply: Reply): State {
    s.(nameLookup := LastValue(reply.pairs, "VALUE", s.nameLookup),
       dest := LastValue(reply.pairs, "DESTINATION", s.dest))
  }

  /** A reply without error in the current state. */
  function Proceed(s: State): State {
    var t := s.(accepted := s.accepted + [s.state]);
    match s.state
    case Hello =>
      (match s.command
       case CreateSession => Send(t, SessionStatus)
       case Accept => Send(t, AcceptStatus)
       case Connect => Send(t, ConnectStatus)
       case _ => Call(t, NoError).(buffer := ""))
    case AcceptStatus => t.(command := Incoming, buffer := "\0", pending := Reading)
    case _ => Call(t, NoError).(buffer := "")
  }

  /** A whole line is in the buffer. */
  function LineRead(s: State, reply: Reply): State {
    if s.command == Incoming then
      Call(s.(dest := CString(s.buffer), gotDestination := true), NoError).(buffer := "")
    else if (reply.first, reply.second) != ExpectedWords(s.state) then Fail(s, ParseFailed)
    else
      var t := Assigned(s, reply);
      if !reply.wellFormed then Fail(t, ParseFailed)
      else if Result(reply) != NoError then Call(t, Result(reply))
      else Proceed(t)
  }

  /** A line with the right words stores its last VALUE and its last DESTINATION, if any. */
  lemma NamesStored(s: State, reply: Reply)
    requires s.command != Incoming && (reply.first, reply.second) == ExpectedWords(s.state)
    ensures var r := LineRead(s, reply);
      && (forall i: nat :: LastNamed(reply.pairs, "VALUE", i) ==> r.nameLookup == reply.pairs[i].1)
      && (forall i: nat :: LastNamed(reply.pairs, "DESTINATION", i) ==> r.dest == reply.pairs[i].1)
      && ((forall i: nat :: !LastNamed(reply.pairs, "VALUE", i)) ==> r.nameLookup == s.nameLookup)
      && ((forall i: nat :: !LastNamed(reply.pairs, "DESTINATION", i)) ==> r.dest == s.dest)
  {
    hide LastNamed, ResultCode, LastValue;
    LastValueExact(reply.pairs, "VALUE", s.nameLookup);
    LastValueExact(reply.pairs, "DESTINATION", s.dest);
  }

  predicate Enabled(s: State, ev: Event) {
    match ev
    case Resolved(_, _) => s.pending == Resolving
    case Connected(_) => s.pending == Connecting
    case Written(_) => s.pending == Writing
    case ByteRead(_, _, _) => s.pending == Reading && s.buffer != ""
  }

  function Step(s: State, ev: Event): State
    requires Enabled(s, ev)
  {
    match ev
    case Resolved(e, noAddress) =>
      if e != NoError || noAddress then Fail(s, e) else s.(pending := Connecting)
    case Connected(e) =>
      if e != NoError then Fail(s, e) else Send(s, Hello)
    case Written(e) =>
      if e != NoError then Fail(s, e) else s.(buffer := "\0", pending := Reading)
    case ByteRead(e, c, reply) =>
      if e != NoError then Fail(s, e)
      else if c != '\n' then s.(buffer := s.buffer[|s.buffer| - 1 := c] + "\0")
      else LineRead(s.(buffer := s.buffer[|s.buffer| - 1 := '\0']), reply)
  }

  // ---------- runs ----------

  function Start(command: Command, dest: string): State {
    State(command, Hello, "", dest, "", Resolving, true, [], [], false, [])
  }

  predicate Runs(s: State, evs: seq<Event>)
    decreases evs
  {
    evs == [] || (Enabled(s, evs[0]) && Runs(Step(s, evs[0]), evs[1..]))
  }

  function After(s: State, evs: seq<Event>): State
    requires Runs(s, evs)
    decreases evs
  {
    if evs == [] then s else After(Step(s, evs[0]), evs[1..])
  }

  predicate Startable(command: Command) {
    command == CreateSession || command == Connect || command == Accept
  }

  /** The replies a command needs, in order. */
  function FullSequence(command: Command): seq<Response>
    requires Startable(command)
  {
    match command
    case CreateSession => [Hello, SessionStatus]
    case Connect => [Hello, ConnectStatus]
    case Accept => [Hello, AcceptStatus]
  }

  /** Where a run of the command can stand while its handler is still held: at most one
      request is unanswered. */
  predicate Underway(s: State, command: Command)
    requires Startable(command)
  {
    var all := FullSequence(command);
    && s.calls == [] && !s.gotDestination
    && if s.pending == Resolving || s.pending == Connecting then
         s.command == command && s.sent == [] && s.accepted == []
       else if s.command == Incoming then
         command == Accept && s.pending == Reading && s.buffer != "" && s.sent == all && s.accepted == all
       else
         && s.command == command && (s.pending == Writing || (s.pending == Reading && s.buffer != ""))
         && ((s.state == Hello && s.sent == [Hello] && s.accepted == [])
             || (s.state == all[1] && s.sent == all && s.accepted == [Hello]))
  }

  /** Every reply of the command was accepted, and for accept the destination line was read. */
  predicate Completed(s: State, command: Command)
    requires Startable(command)
  {
    s.accepted == FullSequence(command) && (s.gotDestination <==> command == Accept)
  }

  /** An invariant of runs. Once the operation is over there was exactly one handler call,
      and success was earned, or reported before anything was sent. */
  predicate Sound(s: State, command: Command)
    requires Startable(command)
  {
    if s.pending == Idle then
      |s.calls| == 1 && (s.calls[0] == NoError ==> s.sent == [] || Completed(s, command))
    else Underway(s, command)
  }

  lemma ProceedSound(s: State, command: Command)
    requires Startable(command) && Underway(s, command) && s.pending == Reading && s.command != Incoming
    ensures Sound(Proceed(s), command) && Proceed(s).sent != [] && Proceed(s).pending != Resolving
  {
    var all := FullSequence(command);
    if s.state == Hello {
      assert s.sent + [all[1]] == all && s.accepted + [Hello] == [Hello];
    } else {
      assert s.accepted + [s.state] == all;
    }
  }

  lemma LineSound(s: State, reply: Reply, command: Command)
    requires Startable(command) && Underway(s, command) && s.pending == Reading
    ensures Sound(LineRead(s, reply), command) && LineRead(s, reply).sent != []
    ensures LineRead(s, reply).pending != Resolving
  {
    hide CString, ExpectedWords, ResultCode, LastValue, Proceed;
    var t := Assigned(s, reply);
    if s.command != Incoming {
      assert Underway(t, command);
      ProceedSound(t, command);
    }
  }

  lemma ByteSound(s: State, ev: Event, command: Command)
    requires Startable(command) && Underway(s, command) && s.pending == Reading && ev.ByteRead? && Enabled(s, ev)
    ensures Sound(Step(s, ev), command) && Step(s, ev).sent != []
    ensures Step(s, ev).pending != Resolving
  {
    hide LineRead;
    var t := s.(buffer := s.buffer[|s.buffer| - 1 := '\0']);
    assert Underway(t, command);
    LineSound(t, ev.reply, command);
  }

  lemma StepSound(s: State, ev: Event, command: Command)
    requires Startable(command) && Sound(s, command) && Enabled(s, ev)
    ensures Sound(Step(s, ev), command)
    ensures Step(s, ev).calls == [NoError] && Step(s, ev).sent == [] <==> ev == Resolved(NoError, true)
    ensures Step(s, ev).pending != Resolving
  {
    if ev.ByteRead? {
      hide Step;
      ByteSound(s, ev, command);
    }
  }

  // ---------- the lines heard ----------

  /** The reply line an event completes, if any. */
  function LineOf(ev: Event): seq<Reply> {
    match ev
    case ByteRead(NoError, '\n', reply) => [reply]
    case _ => []
  }

  function LinesOf(evs: seq<Event>): seq<Reply> {
    if evs == [] then [] else LineOf(evs[0]) + LinesOf(evs[1..])
  }

  /** A line that answers a request without error: the right words, all pairs readable, and
      RESULT absent or OK. */
  ghost predicate Answers(line: Reply, words: (string, string)) {
    (line.first, line.second) == words && line.wellFormed && Tells(line, NoError)
  }

  /** The words that the SAM bridge answers a command with, line by line. */
  function SamReplies(command: Command): (r: seq<(string, string)>)
    ensures |r| == 2
  {
    [("HELLO", "REPLY"), if command == CreateSession then ("SESSION", "STATUS") else ("STREAM", "STATUS")]
  }

  lemma RepliesExpected(command: Command)
    requires Startable(command)
    ensures var all := FullSequence(command);
      ExpectedWords(all[0]) == SamReplies(command)[0] && ExpectedWords(all[1]) == SamReplies(command)[1]
  {
  }

  /** The accepted replies are the lines heard, one by one. */
  ghost predicate Heard(s: State, lines: seq<Reply>) {
    s.pending != Idle || s.calls == [NoError] ==>
      && |lines| == |s.accepted| + (if s.gotDestination then 1 else 0)
      && forall i | 0 <= i < |s.accepted| :: Answers(lines[i], ExpectedWords(s.accepted[i]))
  }

  lemma LineHeard(s: State, reply: Reply, lines: seq<Reply>)
    requires s.calls == [] && !s.gotDestination && s.pending == Reading && Heard(s, lines)
    ensures Heard(LineRead(s, reply), lines + [reply])
  {
    hide CString, ExpectedWords, Result, Tells, LastValue;
    ResultExact(reply, NoError);
    var r := LineRead(s, reply);
    assert forall i | 0 <= i < |lines| :: (lines + [reply])[i] == lines[i];
    if s.command == Incoming {
    } else if Answers(reply, ExpectedWords(s.state)) {
      assert r.accepted == s.accepted + [s.state];
    } else {
      assert r.calls[0] != NoError;
    }
  }

  lemma StepHeard(s: State, ev: Event, command: Command, lines: seq<Reply>)
    requires Startable(command) && Sound(s, command) && Enabled(s, ev) && Heard(s, lines)
    ensures Heard(Step(s, ev), lines + LineOf(ev))
  {
    hide LineRead, Answers;
    assert lines + [] == lines;
    match ev {
      case ByteRead(e, c, reply) =>
        var t := s.(buffer := s.buffer[|s.buffer| - 1 := '\0']);
        assert Underway(t, command) && Heard(t, lines);
        LineHeard(t, reply, lines);
      case _ =>
    }
  }

  // ---------- main results ----------

  lemma {:induction false} RunSound(s: State, evs: seq<Event>, command: Command, lines: seq<Reply>)
    requires Startable(command) && Sound(s, command) && Runs(s, evs) && Heard(s, lines)
    ensures Sound(After(s, evs), command) && Heard(After(s, evs), lines + LinesOf(evs))
    ensures s.pending == Idle ==> evs == []
    ensures s.pending != Resolving && !(s.calls == [NoError] && s.sent == []) ==>
      !(After(s, evs).calls == [NoError] && After(s, evs).sent == [])
    decreases evs
  {
    hide Sound, Heard, Step, LineOf;
    if evs == [] {
      assert lines + LinesOf(evs) == lines;
    } else {
      var next, heard := Step(s, evs[0]), lines + LineOf(evs[0]);
      StepSound(s, evs[0], command);
      StepHeard(s, evs[0], command, lines);
      RunSound(next, evs[1..], command, heard);
      assert heard + LinesOf(evs[1..]) == lines + LinesOf(evs);
      assert s.pending != Idle;
      NotResolved(s, evs[0]);
    }
  }

  lemma NotResolved(s: State, ev: Event)
    requires Enabled(s, ev)
    ensures ev == Resolved(NoError, true) ==> s.pending == Resolving
  {
  }

  /** In every run of a connect the handler is called at most once, and exactly once when
      nothing is scheduled any more; no callback of the connect follows that call. Success
      means that every reply line of the command was heard, each one answering its request
      without error, plus the destination line for accept; the one exception is a resolver
      that reports success without an address. */
  lemma ConnectOutcome(command: Command, dest: string, evs: seq<Event>)
    requires Startable(command) && Runs(Start(command, dest), evs)
    ensures var s, lines, all := After(Start(command, dest), evs), LinesOf(evs), SamReplies(command);
      && |s.calls| == (if s.pending == Idle then 1 else 0)
      && (s.calls != [] ==> forall ev :: !Enabled(s, ev))
      && (s.calls == [NoError] && evs[0] != Resolved(NoError, true) ==>
            && |lines| == 2 + (if command == Accept then 1 else 0)
            && Answers(lines[0], all[0]) && Answers(lines[1], all[1]))
      && (evs != [] && evs[0] == Resolved(NoError, true) ==> s.calls == [NoError] && s.sent == [] && lines == [])
  {
    var s0 := Start(command, dest);
    assert Sound(s0, command) && Heard(s0, []);
    RepliesExpected(command);
    hide ExpectedWords, SamReplies, Tells, LineRead, Smooth;
    RunSound(s0, evs, command, []);
    assert [] + LinesOf(evs) == LinesOf(evs);
    if evs != [] {
      var next := Step(s0, evs[0]);
      StepSound(s0, evs[0], command);
      StepHeard(s0, evs[0], command, []);
      RunSound(next, evs[1..], command, LineOf(evs[0]));
    }
  }

  // ---------- what the handler is told ----------

  /** An event without a transport error; a resolver that names an address. */
  predicate Smooth(ev: Event) {
    ev.e == NoError && (ev.Resolved? ==> !ev.noAddress)
  }

  /** The call that ends a run, read off its last event and the lines heard: a transport error
      goes to the handler as it is; a line with the wrong words, or one that cannot be read, is
      a parse error; else the handler gets what the line tells. Only the last of these, and the
      destination line of an incoming connection, leave the socket open. */
  ghost predicate Verdict(r: State, command: Command, last: Event, lines: seq<Reply>) {
    && |r.calls| == 1
    && var e, n := r.calls[0], |lines|;
       if last.e != NoError then e == last.e && !r.open
       else if last.Resolved? then e == NoError && !r.open
       else if n > 2 then e == NoError && r.open
       else
         && n > 0
         && var line := lines[n - 1];
            if (line.first, line.second) != SamReplies(command)[n - 1] || !line.wellFormed
            then e == ParseFailed && !r.open
            else Tells(line, e) && r.open
  }

  lemma LineVerdict(s: State, ev: Event, command: Command, lines: seq<Reply>)
    requires Startable(command) && Underway(s, command) && Enabled(s, ev) && Heard(s, lines) && s.open
    requires ev.ByteRead? && ev.e == NoError && ev.c == '\n'
    ensures var r := Step(s, ev);
      if r.pending == Idle then Verdict(r, command, ev, lines + [ev.reply]) else r.open
  {
    hide CString, ExpectedWords, Result, Tells, LastValue;
    RepliesExpected(command);
    ResultExact(ev.reply, Result(ev.reply));
    var heard := lines + [ev.reply];
    assert heard[|heard| - 1] == ev.reply;
    assert s.command != Incoming ==> s.state == FullSequence(command)[|lines|];
  }

  lemma StepVerdict(s: State, ev: Event, command: Command, lines: seq<Reply>)
    requires Startable(command) && Sound(s, command) && Enabled(s, ev) && Heard(s, lines) && s.open
    ensures var r := Step(s, ev);
      if r.pending == Idle then Verdict(r, command, ev, lines + LineOf(ev)) else r.open && Smooth(ev)
  {
    if ev.ByteRead? && ev.e == NoError && ev.c == '\n' {
      hide Step, Heard, Verdict, Sound;
      LineVerdict(s, ev, command, lines);
    } else {
      hide Heard, Tells, LineRead;
    }
  }

  lemma {:induction false} RunVerdict(s: State, evs: seq<Event>, command: Command, lines: seq<Reply>)
    requires Startable(command) && Sound(s, command) && Runs(s, evs) && Heard(s, lines) && s.open
    requires evs != []
    ensures var r := After(s, evs);
      if r.pending == Idle then Verdict(r, command, evs[|evs| - 1], lines + LinesOf(evs))
      else r.open && Smooth(evs[|evs| - 1])
    ensures forall i | 0 <= i < |evs| - 1 :: Smooth(evs[i])
    decreases evs
  {
    hide Sound, Heard, Step, LineOf, Verdict, Smooth;
    var heard := lines + LineOf(evs[0]);
    StepSound(s, evs[0], command);
    StepHeard(s, evs[0], command, lines);
    StepVerdict(s, evs[0], command, lines);
    assert heard + LinesOf(evs[1..]) == lines + LinesOf(evs);
    if evs[1..] == [] {
      assert heard + [] == heard;
    } else {
      RunSound(Step(s, evs[0]), evs[1..], command, heard);
      RunVerdict(Step(s, evs[0]), evs[1..], command, heard);
    }
  }

  /** What the handler of a connect is told, in every run. No event but the last had an error.
      While something is scheduled no event had one, every line heard was the next answer, more
      are to come, and the socket is open; in the end the handler gets the verdict of the last
      event. */
  lemma OutcomeExact(command: Command, dest: string, evs: seq<Event>)
    requires Startable(command) && Runs(Start(command, dest), evs) && evs != []
    ensures forall i | 0 <= i < |evs| - 1 :: Smooth(evs[i])
    ensures var s, last, lines := After(Start(command, dest), evs), evs[|evs| - 1], LinesOf(evs);
      if s.pending == Idle then Verdict(s, command, last, lines)
      else s.calls == [] && s.open && Smooth(last) && Answering(command, lines)
  {
    hide Verdict;
    var s0 := Start(command, dest);
    assert Sound(s0, command) && Heard(s0, []);
    ConnectOutcome(command, dest, evs);
    RunVerdict(s0, evs, command, []);
    RunSound(s0, evs, command, []);
    assert [] + LinesOf(evs) == LinesOf(evs);
    if After(s0, evs).pending != Idle {
      StillAnswering(After(s0, evs), command, LinesOf(evs));
    }
  }

  /** Some answers of the command, but not all of its lines. */
  ghost predicate Answering(command: Command, lines: seq<Reply>) {
    && |lines| <= (if command == Accept then 2 else 1)
    && forall i | 0 <= i < |lines| :: Answers(lines[i], SamReplies(command)[i])
  }

  lemma StillAnswering(s: State, command: Command, lines: seq<Reply>)
    requires Startable(command) && Underway(s, command) && s.pending != Idle && Heard(s, lines)
    ensures Answering(command, lines)
  {
    hide Answers;
    RepliesExpected(command);
  }

  /** Without transport errors, a run that is over succeeded if and only if both replies of the
      command were heard and answered without error. */
  lemma SuccessExact(command: Command, dest: string, evs: seq<Event>)
    requires Startable(command) && Runs(Start(command, dest), evs)
    requires forall i | 0 <= i < |evs| :: Smooth(evs[i])
    requires After(Start(command, dest), evs).pending == Idle
    ensures var s, lines, all := After(Start(command, dest), evs), LinesOf(evs), SamReplies(command);
      s.calls == [NoError] <==> |lines| >= 2 && Answers(lines[0], all[0]) && Answers(lines[1], all[1])
  {
    hide Tells;
    ConnectOutcome(command, dest, evs);
    OutcomeExact(command, dest, evs);
    assert Smooth(evs[0]) && Smooth(evs[|evs| - 1]);
    var s, lines := After(Start(command, dest), evs), LinesOf(evs);
    if |lines| == 2 {
      ResultExact(lines[1], NoError);
      ResultExact(lines[1], s.calls[0]);
    }
  }

  /** The bytes of a line arriving one by one. */
  function Bytes(text: string, reply: Reply): seq<Event> {
    if text == "" then [ByteRead(NoError, '\n', reply)]
    else [ByteRead(NoError, text[0], reply)] + Bytes(text[1..], reply)
  }

  /** The line of an incoming connection, byte by byte, becomes the destination, up to the
      first NUL in it. */
  lemma {:induction false} IncomingLine(s: State, before: string, text: string, reply: Reply)
    requires s.command == Incoming && s.pending == Reading && s.buffer == before + "\0"
    requires '\n' !in text
    ensures Runs(s, Bytes(text, reply))
    ensures var r := After(s, Bytes(text, reply));
      r.dest == CString(before + text) && r.calls == s.calls + [NoError] && r.buffer == ""
    decreases |text|
  {
    var evs := Bytes(text, reply);
    if text == "" {
      CStringEnds(before, "");
      assert s.buffer[|s.buffer| - 1 := '\0'] == before + "\0" + "" && before + text == before;
      assert evs[1..] == [];
    } else {
      assert text[0] in text && text == [text[0]] + text[1..];
      var next := Step(s, evs[0]);
      assert next.buffer == (before + [text[0]]) + "\0";
      assert (before + [text[0]]) + text[1..] == before + text;
      assert evs[1..] == Bytes(text[1..], reply);
      IncomingLine(next, before + [text[0]], text[1..], reply);
    }
  }

  // ---------- the object ----------

  /** The stream object. Its handler is a number of calls made with an error each; pending
      tells which operation holds the handler next. */
  class I2pStream {
    var mCommand: Command
    var mState: Response
    var mBuffer: string
    var mDest: string
    var mNameLookup: string
    var pending: Pending
    var isOpen: bool
    var calls: seq<Error>
    ghost var sent: seq<Response>
    ghost var accepted: seq<Response>
    ghost var gotDestination: bool

    ghost function View(): State
      reads this
    {
      State(mCommand, mState, mBuffer, mDest, mNameLookup, pending, isOpen, sent, accepted, gotDestination, calls)
    }

    /** set_command, set_destination and async_connect on a new stream. */
    constructor (command: Command, dest: string)
      ensures View() == Start(command, dest)
    {
      mCommand, mState, mBuffer, mDest, mNameLookup := command, Hello, "", dest, "";
      pending, isOpen, calls := Resolving, true, [];
      sent, accepted, gotDestination := [], [], false;
    }

    method CallHandler(e: Error)
      modifies this
      ensures View() == Call(old(View()), e)
    {
      pending, calls := Idle, calls + [e];
    }

    method HandleError(e: Error) returns (failed: bool)
      modifies this
      ensures failed <==> e != NoError
      ensures View() == if failed then Fail(old(View()), e) else old(View())
    {
      if e == NoError { return false; }
      CallHandler(e);
      isOpen := false;
      return true;
    }

    method SendCommand(next: Response)
      modifies this
      ensures View() == Send(old(View()), next)
    {
      mState := next;
      pending := Writing;
      sent := sent + [next];
    }

    method SendNameLookup(name: string)
      modifies this
      ensures View() == SendLookup(old(View()), name)
    {
      mNameLookup := CString(name);
      SendCommand(NamingReply);
    }

    method DoConnect(e: Error, noAddress: bool)
      requires pending == Resolving
      modifies this
      ensures View() == Step(old(View()), Resolved(e, noAddress))
    {
      if e != NoError || noAddress {
        CallHandler(e);
        isOpen := false;
        return;
      }
      pending := Connecting;
    }

    method OnConnected(e: Error)
      requires pending == Connecting
      modifies this
      ensures View() == Step(old(View()), Connected(e))
    {
      var failed := HandleError(e);
      if failed { return; }
      SendCommand(Hello);
    }

    method StartReadLine(e: Error)
      requires pending == Writing
      modifies this
      ensures View() == Step(old(View()), Written(e))
    {
      var failed := HandleError(e);
      if failed { return; }
      mBuffer := "\0";
      pending := Reading;
    }

    /** One byte, c, was read into the last place of the buffer; reply is what the buffer
        holds as a line. */
    method ReadLine(e: Error, c: char, reply: Reply)
      requires pending == Reading && mBuffer != ""
      modifies this
      ensures View() == Step(old(View()), ByteRead(e, c, reply))
    {
      var failed := HandleError(e);
      if failed { return; }
      mBuffer := mBuffer[|mBuffer| - 1 := c];
      if mBuffer[|mBuffer| - 1] != '\n' {
        mBuffer := mBuffer + "\0";
        return;
      }
      mBuffer := mBuffer[|mBuffer| - 1 := '\0'];
      assert mBuffer == old(mBuffer)[|mBuffer| - 1 := '\0'];
      OnLine(reply);
    }

    method OnLine(reply: Reply)
      requires pending == Reading
      modifies this
      ensures View() == LineRead(old(View()), reply)
    {
      hide LastValue, CString;
      if mCommand == Incoming {
        mDest := CString(mBuffer);
        gotDestination := true;
        CallHandler(NoError);
        mBuffer := "";
        return;
      }
      if (reply.first, reply.second) != ExpectedWords(mState) {
        var _ := HandleError(ParseFailed);
        return;
      }
      var result := ReadPairs(reply.pairs);
      if !reply.wellFormed {
        var _ := HandleError(ParseFailed);
        return;
      }
      if result != NoError {
        CallHandler(result);
        return;
      }
      Advance();
    }

    method ReadPairs(pairs: seq<(string, string)>) returns (result: Error)
      modifies this
      ensures result == ResultCode(LastValue(pairs, "RESULT", "OK"))
      ensures View() == old(View()).(nameLookup := LastValue(pairs, "VALUE", old(mNameLookup)),
                                     dest := LastValue(pairs, "DESTINATION", old(mDest)))
    {
      result := NoError;
      ghost var code := "OK";
      for i := 0 to |pairs|
        invariant result == ResultCode(code)
        invariant LastValue(pairs[i..], "RESULT", code) == LastValue(pairs, "RESULT", "OK")
        invariant LastValue(pairs[i..], "VALUE", mNameLookup) == LastValue(pairs, "VALUE", old(mNameLookup))
        invariant LastValue(pairs[i..], "DESTINATION", mDest) == LastValue(pairs, "DESTINATION", old(mDest))
        invariant View() == old(View()).(nameLookup := mNameLookup, dest := mDest)
      {
        assert pairs[i..][1..] == pairs[i + 1..];
        if pairs[i].0 == "RESULT" {
          result := ResultCode(pairs[i].1);
          code := pairs[i].1;
        } else if pairs[i].0 == "VALUE" {
          mNameLookup := pairs[i].1;
        } else if pairs[i].0 == "DESTINATION" {
          mDest := pairs[i].1;
        }
      }
    }

    method Advance()
      modifies this
      ensures View() == Proceed(old(View()))
    {
      accepted := accepted + [mState];
      match mState {
        case Hello =>
          match mCommand {
            case CreateSession => SendCommand(SessionStatus);
            case Accept => SendCommand(AcceptStatus);
            case Connect => SendCommand(ConnectStatus);
            case _ =>
              CallHandler(NoError);
              mBuffer := "";
          }
        case AcceptStatus =>
          mCommand := Incoming;
          mBuffer := "\0";
          pending := Reading;
        case _ =>
          CallHandler(NoError);
          mBuffer := "";
      }
    }
  }

  /** Driving a new stream through any run of events ends where the run of steps ends. */
  method Drive(stream: I2pStream, evs: seq<Event>)
    requires Runs(stream.View(), evs)
    modifies stream
    ensures stream.View() == After(old(stream.View()), evs)
  {
    hide Step;
    for n := 0 to |evs|
      invariant Runs(stream.View(), evs[n..])
      invariant After(stream.View(), evs[n..]) == After(old(stream.View()), evs)
    {
      assert evs[n..][1..] == evs[n + 1..];
      match evs[n] {
        case Resolved(e, noAddress) => stream.DoConnect(e, noAddress);
        case Connected(e) => stream.OnConnected(e);
        case Written(e) => stream.StartReadLine(e);
        case ByteRead(e, c, reply) => stream.ReadLine(e, c, reply);
      }
    }
  }
}
