/**
 The I2P connection: name lookups on the one SAM socket, one at a time, with a queue for
 those that have to wait. Each callback is one step of a session.
 */
module I2pConnections {
  import opened CStrings
  import Stream = I2pStreams

  datatype Sam = SamConnecting | SamNameLookup | SamIdle

  /** Whose handler waits for a lookup: that of open, or that of a numbered request. */
  datatype Handler = OnOpen | OnRequest(id: nat)

  datatype Query = Query(name: string, handler: Handler)

  datatype Answer = Failed(e: Stream.Error) | Found(name: string)

  datatype Done = Done(query: Query, answer: Answer)

  /** One session. Started lookups that were not answered yet are outstanding; streamName is
      the name the stream holds; done lists the handlers run. While the stream is closing,
      the handler that an error ran has not returned yet, and the socket is still open. */
  datatype Session = Session(
    state: Sam, open: bool, closing: bool, queue: seq<Query>, streamName: string,
    outstanding: seq<Query>, done: seq<Done>)

  /** SamConnected tells whether the socket was opened, and whether the stream closes it once
      the handler returns. A request may also come from a handler that is running. */
  datatype Event =
    | Request(name: string, id: nat)
    | SamConnected(e: Stream.Error, isOpen: bool, closes: bool)
    | LookupDone(e: Stream.Error, reply: Stream.Reply)
    | Closed

  // ---------- what one callback does ----------

  function DoNameLookup(s: Session, q: Query): Session {
    s.(state := SamNameLookup, streamName := CString(q.name), outstanding := s.outstanding + [q])
  }

  /** Whether a reply is read at all: it came, and it has the words of a naming reply. */
  predicate Read(e: Stream.Error, reply: Stream.Reply) {
    e == Stream.NoError && (reply.first, reply.second) == Stream.ExpectedWords(Stream.NamingReply)
  }

  function LookupError(e: Stream.Error, reply: Stream.Reply): Stream.Error {
    if e != Stream.NoError then e
    else if !Read(e, reply) || !reply.wellFormed then Stream.ParseFailed
    else Stream.Result(reply)
  }

  /** What the stream does before it calls on_name_lookup. */
  function StreamReplied(s: Session, e: Stream.Error, reply: Stream.Reply): Session
    requires s.outstanding != []
  {
    s.(streamName := if Read(e, reply) then Stream.LastValue(reply.pairs, "VALUE", s.streamName) else s.streamName,
       outstanding := s.outstanding[1..])
  }

  function StartNext(s: Session): Session {
    if s.queue == [] then s else DoNameLookup(s, s.queue[0]).(queue := s.queue[1..])
  }

  /** on_name_lookup: the next lookup starts before the handler of this one runs. */
  function OnNameLookup(s: Session, q: Query, ec: Stream.Error): Session {
    var name := s.streamName;
    var t := StartNext(s.(state := SamIdle));
    t.(done := t.done + [Done(q, if ec != Stream.NoError then Failed(ec) else Found(CString(name)))])
  }

  /** How the stream can end its connect: a resolver that gives no address leaves the socket
      unopened, with or without an error; once opened, only an error closes it, and an error
      result in a reply does not. */
  predicate Connects(e: Stream.Error, isOpen: bool, closes: bool) {
    if isOpen then closes ==> e != Stream.NoError else closes
  }

  predicate Enabled(s: Session, ev: Event) {
    match ev
    case Request(_, _) => true
    case SamConnected(e, isOpen, closes) => !s.closing && s.state == SamConnecting && Connects(e, isOpen, closes)
    case LookupDone(_, _) => !s.closing && s.outstanding != []
    case Closed => s.closing
  }

  function Step(s: Session, ev: Event): Session
    requires Enabled(s, ev)
  {
    match ev
    case Request(name, id) =>
      var q := Query(name, OnRequest(id));
      if s.state == SamIdle && s.queue == [] && s.open then DoNameLookup(s, q)
      else s.(queue := s.queue + [q])
    case SamConnected(e, isOpen, closes) =>
      var t := s.(state := SamIdle, open := isOpen, closing := closes);
      if e != Stream.NoError then t else DoNameLookup(t, Query("ME", OnOpen))
    case LookupDone(e, reply) =>
      var ec := LookupError(e, reply);
      var t := OnNameLookup(StreamReplied(s, e, reply), s.outstanding[0], ec);
      t.(closing := !(Read(e, reply) && reply.wellFormed))
    case Closed => s.(open := false, closing := false)
  }

  /** open on a new connection, with the requests that were already waiting. */
  function Opened(waiting: seq<Query>): Session {
    Session(SamConnecting, false, false, waiting, "", [], [])
  }

  predicate Runs(s: Session, evs: seq<Event>)
    decreases evs
  {
    evs == [] || (Enabled(s, evs[0]) && Runs(Step(s, evs[0]), evs[1..]))
  }

  function After(s: Session, evs: seq<Event>): Session
    requires Runs(s, evs)
    decreases evs
  {
    if evs == [] then s else After(Step(s, evs[0]), evs[1..])
  }

  // ---------- the reference: a first-in first-out server ----------

  /** All lookups asked for after one more event, in the order they are served: the one of
      open goes to the front when the session is up. */
  function AskedNext(asked: seq<Query>, ev: Event): seq<Query> {
    match ev
    case Request(name, id) => asked + [Query(name, OnRequest(id))]
    case SamConnected(e, _, _) => if e == Stream.NoError then [Query("ME", OnOpen)] + asked else asked
    case _ => asked
  }

  function Asked(asked: seq<Query>, evs: seq<Event>): seq<Query>
    decreases evs
  {
    if evs == [] then asked else Asked(AskedNext(asked, evs[0]), evs[1..])
  }

  function RepliesNext(replies: seq<Event>, ev: Event): seq<Event> {
    if ev.LookupDone? then replies + [ev] else replies
  }

  function Replies(replies: seq<Event>, evs: seq<Event>): seq<Event>
    decreases evs
  {
    if evs == [] then replies else Replies(RepliesNext(replies, evs[0]), evs[1..])
  }

  /** The answer to a query that this reply gives: its own value, or else the name asked for. */
  function AnswerOf(q: Query, ev: Event): Answer
    requires ev.LookupDone?
  {
    var ec := LookupError(ev.e, ev.reply);
    if ec != Stream.NoError then Failed(ec)
    else Found(CString(Stream.LastValue(ev.reply.pairs, "VALUE", CString(q.name))))
  }

  /** The last VALUE of a line, or the name asked for, up to the first NUL. */
  ghost predicate FoundName(found: string, line: Stream.Reply, asked: string) {
    && (forall i: nat :: Stream.LastNamed(line.pairs, "VALUE", i) ==> found == CString(line.pairs[i].1))
    && ((forall i: nat :: !Stream.LastNamed(line.pairs, "VALUE", i)) ==> found == CString(asked))
  }

  /** The answer, read off the reply: a transport error as it is, a parse error for the wrong
      words or pairs that cannot be read, the error the reply tells, or else its last VALUE; a
      reply without one stands for the name asked for. */
  lemma AnswerExact(q: Query, ev: Event, e: Stream.Error)
    requires ev.LookupDone?
    ensures exists d :: Stream.Tells(ev.reply, d)
    ensures var a, line := AnswerOf(q, ev), ev.reply;
      if ev.e != Stream.NoError then a == Failed(ev.e)
      else if (line.first, line.second) != ("NAMING", "REPLY") || !line.wellFormed then a == Failed(Stream.ParseFailed)
      else
        && (Stream.Tells(line, e) && e != Stream.NoError ==> a == Failed(e))
        && (Stream.Tells(line, Stream.NoError) ==> a.Found? && FoundName(a.name, line, q.name))
  {
    hide Stream.Tells, Stream.Result, Stream.LastValue, Stream.LastNamed;
    Stream.ResultExact(ev.reply, e);
    Stream.ResultExact(ev.reply, Stream.NoError);
    Stream.ResultExact(ev.reply, Stream.Result(ev.reply));
    Stream.LastValueExact(ev.reply.pairs, "VALUE", CString(q.name));
    CStringExact(CString(q.name));
  }

  /** The session serves the lookups asked for one by one: reply i answered lookup i, the
      rest are outstanding or queued in order, and at most one is outstanding. */
  predicate Serves(s: Session, asked: seq<Query>, replies: seq<Event>) {
    && |s.outstanding| == (if s.state == SamNameLookup then 1 else 0)
    && (s.outstanding != [] ==> s.streamName == CString(s.outstanding[0].name))
    && (s.state == SamConnecting ==> s.done == [])
    && |s.done| == |replies| <= |asked|
    && s.outstanding + s.queue == asked[|s.done|..]
    && forall i | 0 <= i < |replies| ::
         replies[i].LookupDone? && s.done[i] == Done(asked[i], AnswerOf(asked[i], replies[i]))
  }

  lemma RequestServes(s: Session, ev: Event, asked: seq<Query>, replies: seq<Event>)
    requires Serves(s, asked, replies) && ev.Request?
    ensures Serves(Step(s, ev), AskedNext(asked, ev), replies)
  {
    hide AnswerOf;
    var q := Query(ev.name, OnRequest(ev.id));
    assert (asked + [q])[|s.done|..] == asked[|s.done|..] + [q];
  }

  lemma AllWaiting(asked: seq<Query>, queue: seq<Query>, q: Query)
    requires [] + queue == asked[0..]
    ensures queue == asked && [q] + queue == ([q] + asked)[0..]
  {
    assert [] + queue == queue && asked[0..] == asked;
  }

  lemma ConnectServes(s: Session, ev: Event, asked: seq<Query>, replies: seq<Event>)
    requires Serves(s, asked, replies) && Enabled(s, ev) && ev.SamConnected?
    ensures Serves(Step(s, ev), AskedNext(asked, ev), replies)
  {
    hide AnswerOf, LookupError, Read, Stream.LastValue;
    var r := Step(s, ev);
    assert s.done == [] && s.outstanding == [] && replies == [];
    AllWaiting(asked, s.queue, Query("ME", OnOpen));
    assert r.done == [] && r.outstanding == if ev.e == Stream.NoError then [Query("ME", OnOpen)] else [];
    hide Step, CString;
  }

  /** One lookup answered: its handler gets the reply to its own query, although the stream
      already holds the name of the next one. */
  lemma ReplyStep(s: Session, ev: Event)
    requires |s.outstanding| == 1 && s.streamName == CString(s.outstanding[0].name) && ev.LookupDone? && !s.closing
    ensures var r := Step(s, ev);
      && r.done == s.done + [Done(s.outstanding[0], AnswerOf(s.outstanding[0], ev))]
      && r.outstanding == s.queue[..if s.queue == [] then 0 else 1]
      && r.queue == s.queue[|r.outstanding|..]
      && r.state == (if s.queue == [] then SamIdle else SamNameLookup)
      && (s.queue != [] ==> r.streamName == CString(s.queue[0].name))
  {
    hide Stream.LastValue;
    assert LookupError(ev.e, ev.reply) == Stream.NoError ==> Read(ev.e, ev.reply);
    hide LookupError, Read;
    assert s.outstanding[1..] == [];
  }

  lemma ReplyServes(s: Session, ev: Event, asked: seq<Query>, replies: seq<Event>)
    requires Serves(s, asked, replies) && Enabled(s, ev) && ev.LookupDone?
    ensures Serves(Step(s, ev), asked, replies + [ev])
  {
    hide Step, AnswerOf;
    ReplyStep(s, ev);
    NextServed(asked, |s.done|, s.outstanding[0], s.queue);
  }

  lemma NextServed(asked: seq<Query>, n: nat, q: Query, queue: seq<Query>)
    requires n <= |asked| && [q] + queue == asked[n..]
    ensures n < |asked| && asked[n] == q && asked[n + 1..] == queue
    ensures queue[..if queue == [] then 0 else 1] + queue[if queue == [] then 0 else 1..] == queue
  {
    assert asked[n] == asked[n..][0] && asked[n + 1..] == asked[n..][1..];
  }

  lemma ClosedServes(s: Session, asked: seq<Query>, replies: seq<Event>)
    requires Serves(s, asked, replies) && s.closing
    ensures Serves(Step(s, Closed), asked, replies)
  {
    hide AnswerOf;
  }

  lemma StepServes(s: Session, ev: Event, asked: seq<Query>, replies: seq<Event>)
    requires Serves(s, asked, replies) && Enabled(s, ev)
    ensures Serves(Step(s, ev), AskedNext(asked, ev), RepliesNext(replies, ev))
  {
    hide Serves, Step;
    match ev {
      case Request(_, _) => RequestServes(s, ev, asked, replies);
      case SamConnected(_, _, _) => ConnectServes(s, ev, asked, replies);
      case LookupDone(_, _) => ReplyServes(s, ev, asked, replies);
      case Closed => ClosedServes(s, asked, replies);
    }
  }

  lemma {:induction false} RunServes(s: Session, evs: seq<Event>, asked: seq<Query>, replies: seq<Event>)
    requires Serves(s, asked, replies) && Runs(s, evs)
    ensures Serves(After(s, evs), Asked(asked, evs), Replies(replies, evs))
    decreases evs
  {
    hide Serves, Step, AskedNext, RepliesNext;
    if evs != [] {
      StepServes(s, evs[0], asked, replies);
      RunServes(Step(s, evs[0]), evs[1..], AskedNext(asked, evs[0]), RepliesNext(replies, evs[0]));
    }
  }

  lemma OpenedServes(waiting: seq<Query>, evs: seq<Event>)
    requires Runs(Opened(waiting), evs)
    ensures Serves(After(Opened(waiting), evs), Asked(waiting, evs), Replies([], evs))
  {
    RunServes(Opened(waiting), evs, waiting, []);
  }

  // ---------- main results ----------

  /** In every run of a session: at most one lookup is outstanding; lookups are answered in
      the order asked, each with the reply to its own query; and every lookup asked for is
      answered, outstanding or queued, once. */
  lemma LookupsInOrder(waiting: seq<Query>, evs: seq<Event>)
    requires Runs(Opened(waiting), evs)
    ensures var s, asked, replies := After(Opened(waiting), evs), Asked(waiting, evs), Replies([], evs);
      && |s.outstanding| <= 1
      && |asked| == |s.done| + |s.outstanding| + |s.queue|
      && |s.done| == |replies|
      && (forall i | 0 <= i < |s.done| ::
            replies[i].LookupDone? && s.done[i] == Done(asked[i], AnswerOf(asked[i], replies[i])))
      && s.outstanding + s.queue == asked[|s.done|..]
  {
    OpenedServes(waiting, evs);
    var s := After(Opened(waiting), evs);
    assert |s.outstanding + s.queue| == |s.outstanding| + |s.queue|;
  }

  /** Lookups that wait while nothing is outstanding and no connect is under way. */
  predicate Stuck(s: Session) {
    s.state == SamIdle && s.outstanding == [] && s.queue != []
  }

  /** Once stuck, forever stuck: whatever happens, nothing more is answered, and whatever is
      asked waits with the rest. */
  lemma {:induction false} StuckForever(s: Session, evs: seq<Event>)
    requires Stuck(s) && Runs(s, evs)
    ensures var r := After(s, evs);
      Stuck(r) && r.done == s.done && s.queue <= r.queue && r.queue == Asked(s.queue, evs)
    decreases evs
  {
    if evs != [] {
      assert Stuck(Step(s, evs[0])) && s.queue <= Step(s, evs[0]).queue;
      StuckForever(Step(s, evs[0]), evs[1..]);
    }
  }

  predicate SessionUp(evs: seq<Event>) {
    exists i :: 0 <= i < |evs| && evs[i].SamConnected?
  }

  /** Whether the socket is open after these events. */
  predicate SocketOpen(evs: seq<Event>) {
    evs != [] &&
    match evs[|evs| - 1]
    case SamConnected(_, isOpen, _) => isOpen
    case Closed => false
    case _ => SocketOpen(evs[..|evs| - 1])
  }

  /** Event k strands lookups: a connect fails while some were asked for, or one is asked for
      on a closed socket when all others were answered. */
  predicate StrandsAt(waiting: seq<Query>, evs: seq<Event>, k: nat)
    requires k < |evs|
  {
    var before := evs[..k];
    match evs[k]
    case SamConnected(e, _, _) => e != Stream.NoError && Asked(waiting, before) != []
    case Request(_, _) =>
      SessionUp(before) && !SocketOpen(before) && |Asked(waiting, before)| == |Replies([], before)|
    case _ => false
  }

  lemma {:induction false} RunsSnoc(s: Session, evs: seq<Event>)
    requires evs != [] && Runs(s, evs)
    ensures var before, last := evs[..|evs| - 1], evs[|evs| - 1];
      Runs(s, before) && Enabled(After(s, before), last) && After(s, evs) == Step(After(s, before), last)
    decreases evs
  {
    hide Step, Enabled;
    if |evs| > 1 {
      RunsSnoc(Step(s, evs[0]), evs[1..]);
      assert evs[1..][..|evs| - 2] == evs[..|evs| - 1][1..];
    } else {
      assert evs[..0] == [] && evs[1..] == [];
    }
  }

  lemma SessionUpSnoc(evs: seq<Event>)
    requires evs != []
    ensures SessionUp(evs) <==> SessionUp(evs[..|evs| - 1]) || evs[|evs| - 1].SamConnected?
  {
    assert forall i | 0 <= i < |evs| - 1 :: evs[..|evs| - 1][i] == evs[i];
  }

  lemma SocketStep(s: Session, ev: Event)
    requires Enabled(s, ev) && (s.state == SamConnecting ==> s.outstanding == [])
    ensures Step(s, ev).open ==
      match ev case SamConnected(_, isOpen, _) => isOpen case Closed => false case _ => s.open
    ensures Step(s, ev).state == SamConnecting <==> s.state == SamConnecting && !ev.SamConnected?
  {
    hide LookupError, Read, Stream.LastValue;
  }

  lemma {:induction false} SocketAfter(waiting: seq<Query>, evs: seq<Event>)
    requires Runs(Opened(waiting), evs)
    ensures var s := After(Opened(waiting), evs);
      && s.open == SocketOpen(evs)
      && (s.state == SamConnecting <==> !SessionUp(evs))
    decreases |evs|
  {
    if evs != [] {
      var before, last := evs[..|evs| - 1], evs[|evs| - 1];
      RunsSnoc(Opened(waiting), evs);
      SocketAfter(waiting, before);
      SessionUpSnoc(evs);
      OpenedServes(waiting, before);
      assert After(Opened(waiting), before).state == SamConnecting ==> After(Opened(waiting), before).outstanding == [];
      hide Step, After, Runs, Serves, Enabled, SessionUp;
      SocketStep(After(Opened(waiting), before), last);
    }
  }

  lemma StrandsStep(s: Session, ev: Event, asked: seq<Query>, replies: seq<Event>)
    requires Serves(s, asked, replies) && Enabled(s, ev)
    ensures Stuck(Step(s, ev)) <==>
      || Stuck(s)
      || (ev.SamConnected? && ev.e != Stream.NoError && asked != [])
      || (ev.Request? && s.state != SamConnecting && !s.open && |asked| == |replies|)
  {
    hide AnswerOf, LookupError, Read, Stream.LastValue;
    assert |s.outstanding + s.queue| == |asked| - |s.done|;
    assert s.state == SamConnecting ==> s.queue == s.outstanding + s.queue == asked;
  }

  lemma StuckStep(waiting: seq<Query>, evs: seq<Event>)
    requires evs != [] && Runs(Opened(waiting), evs)
    ensures var before := evs[..|evs| - 1];
      && Runs(Opened(waiting), before)
      && (Stuck(After(Opened(waiting), evs)) <==>
            Stuck(After(Opened(waiting), before)) || StrandsAt(waiting, evs, |evs| - 1))
  {
    hide Step, Serves, Stuck;
    var before, last := evs[..|evs| - 1], evs[|evs| - 1];
    RunsSnoc(Opened(waiting), evs);
    SocketAfter(waiting, before);
    OpenedServes(waiting, before);
    StrandsStep(After(Opened(waiting), before), last, Asked(waiting, before), Replies([], before));
  }

  /** A run gets stuck exactly by an event that strands lookups; in particular never by what
      a handler asks for while the socket is still open, even if it is about to be closed. */
  lemma {:induction false} StuckExactly(waiting: seq<Query>, evs: seq<Event>)
    requires Runs(Opened(waiting), evs)
    ensures Stuck(After(Opened(waiting), evs)) <==> exists k :: 0 <= k < |evs| && StrandsAt(waiting, evs, k)
    decreases |evs|
  {
    if evs != [] {
      var before := evs[..|evs| - 1];
      StuckStep(waiting, evs);
      StuckExactly(waiting, before);
      hide Stuck;
      forall k | 0 <= k < |before|
        ensures StrandsAt(waiting, before, k) == StrandsAt(waiting, evs, k)
      {
        assert before[..k] == evs[..k];
      }
    }
  }

  // ---------- the stream under a lookup ----------

  /** A stream of this session that waits for the reply to a lookup of name. */
  predicate Asking(t: Stream.State, name: string) {
    && t.command == Stream.CreateSession && t.state == Stream.NamingReply && t.nameLookup == name
    && (t.pending == Stream.Writing || (t.pending == Stream.Reading && t.buffer != ""))
  }

  /** The line an event of the stream completes, or no line at all. */
  function LineOf(ev: Stream.Event): Stream.Reply {
    if ev.ByteRead? then ev.reply else Stream.Reply("", "", [], false)
  }

  /** A stream that was asked for a name and has called its handler on this last event. */
  predicate Replied(t: Stream.State, before: Stream.State, last: Stream.Event) {
    var e, line := last.e, LineOf(last);
    && t.pending == Stream.Idle
    && t.calls == before.calls + [LookupError(e, line)]
    && t.open == (before.open && Read(e, line) && line.wellFormed)
    && t.nameLookup ==
       if Read(e, line) then Stream.LastValue(line.pairs, "VALUE", before.nameLookup) else before.nameLookup
  }

  /** The one handler call that takes the stream from t to r is this event of the session: the
      query gets the error of the call or the name the stream then holds, and the stream is
      closing exactly if it closes the socket behind the handler. */
  predicate Served(s: Session, t: Stream.State, r: Stream.State, ev: Event)
    requires ev.LookupDone? && Enabled(s, ev)
  {
    && |r.calls| == |t.calls| + 1 && r.calls[..|t.calls|] == t.calls
    && var ec := r.calls[|t.calls|];
    && Step(s, ev).done ==
       s.done + [Done(s.outstanding[0], if ec == Stream.NoError then Found(CString(r.nameLookup)) else Failed(ec))]
    && r.open == (t.open && !Step(s, ev).closing)
  }

  lemma AskingStep(t: Stream.State, ev: Stream.Event, name: string)
    requires Asking(t, name) && Stream.Enabled(t, ev)
    ensures var r := Stream.Step(t, ev);
      || (Asking(r, name) && r.calls == t.calls && r.open == t.open && r.nameLookup == t.nameLookup)
      || Replied(r, t, ev)
  {
    hide Stream.LastValue, Stream.ResultCode, CString;
  }

  lemma {:induction false} AskingRun(t: Stream.State, evs: seq<Stream.Event>, name: string)
    requires Asking(t, name) && Stream.Runs(t, evs)
    ensures var r := Stream.After(t, evs);
      || (Asking(r, name) && r.calls == t.calls && r.open == t.open && r.nameLookup == t.nameLookup)
      || (evs != [] && Replied(r, t, evs[|evs| - 1]))
    decreases evs
  {
    hide Stream.Step, LookupError, Read;
    if evs != [] {
      AskingStep(t, evs[0], name);
      var next := Stream.Step(t, evs[0]);
      if Asking(next, name) {
        AskingRun(next, evs[1..], name);
      } else {
        assert evs[1..] == [];
      }
    }
  }

  lemma RepliedServes(s: Session, t: Stream.State, r: Stream.State, last: Stream.Event)
    requires |s.outstanding| == 1 && !s.closing && t.nameLookup == s.streamName
    requires Replied(r, t, last)
    ensures Served(s, t, r, LookupDone(last.e, LineOf(last)))
  {
    hide LineOf, Stream.LastValue, Stream.Result;
    assert r.calls[..|t.calls|] == t.calls;
    hide Stream.ExpectedWords;
  }

  lemma ServedFrom(s: Session, t: Stream.State, u: Stream.State, r: Stream.State, ev: Event)
    requires ev.LookupDone? && Enabled(s, ev) && Served(s, t, r, ev) && u.calls == t.calls && u.open == t.open
    ensures Served(s, u, r, ev)
  {
    hide Step;
  }

  /** A lookup on the stream, for any run of its callbacks: until the last one no handler is
      called, and that one serves the query of the session. */
  lemma LookupOnStream(s: Session, t: Stream.State, evs: seq<Stream.Event>)
    requires |s.outstanding| == 1 && s.streamName == CString(s.outstanding[0].name) && !s.closing
    requires t.command == Stream.CreateSession
    requires Stream.Runs(Stream.SendLookup(t, s.outstanding[0].name), evs)
    ensures var r := Stream.After(Stream.SendLookup(t, s.outstanding[0].name), evs);
      && (r.pending != Stream.Idle ==> r.calls == t.calls && r.open == t.open)
      && (r.pending == Stream.Idle ==>
            evs != [] && var last := evs[|evs| - 1]; Served(s, t, r, LookupDone(last.e, LineOf(last))))
  {
    var t0 := Stream.SendLookup(t, s.outstanding[0].name);
    AskingRun(t0, evs, s.streamName);
    hide Stream.After, Stream.Runs, Replied, Served;
    var r := Stream.After(t0, evs);
    if r.pending == Stream.Idle {
      RepliedServes(s, t0, r, evs[|evs| - 1]);
      ServedFrom(s, t0, t, r, LookupDone(evs[|evs| - 1].e, LineOf(evs[|evs| - 1])));
    }
  }

  /** The stream object, asked for the name of the query and driven by any run of its
      callbacks, serves the query. */
  method LookUp(stream: Stream.I2pStream, evs: seq<Stream.Event>, q: Query, ghost s: Session)
    requires s.outstanding == [q] && s.streamName == CString(q.name) && !s.closing
    requires stream.mCommand == Stream.CreateSession
    requires Stream.Runs(Stream.SendLookup(stream.View(), q.name), evs)
    modifies stream
    ensures stream.pending != Stream.Idle ==> stream.calls == old(stream.calls) && stream.isOpen == old(stream.isOpen)
    ensures stream.pending == Stream.Idle ==>
      evs != [] && var last := evs[|evs| - 1];
      Served(s, old(stream.View()), stream.View(), LookupDone(last.e, LineOf(last)))
  {
    hide Served;
    ghost var t := stream.View();
    stream.SendNameLookup(q.name);
    Stream.Drive(stream, evs);
    LookupOnStream(s, t, evs);
  }

  // ---------- the object ----------

  class I2pConnection {
    var mState: Sam
    var isOpen: bool
    var closing: bool
    var mNameLookup: seq<Query>
    var streamName: string
    var outstanding: seq<Query>
    var done: seq<Done>

    ghost function View(): Session
      reads this
    {
      Session(mState, isOpen, closing, mNameLookup, streamName, outstanding, done)
    }

    constructor (waiting: seq<Query>)
      ensures View() == Opened(waiting)
    {
      mState, isOpen, closing, mNameLookup := SamConnecting, false, false, waiting;
      streamName, outstanding, done := "", [], [];
    }

    method AsyncNameLookup(name: string, id: nat)
      requires mState == SamNameLookup || outstanding == []
      modifies this
      ensures View() == Step(old(View()), Request(name, id))
    {
      if mState == SamIdle && mNameLookup == [] && isOpen {
        StartLookup(Query(name, OnRequest(id)));
      } else {
        mNameLookup := mNameLookup + [Query(name, OnRequest(id))];
      }
    }

    /** do_name_lookup: only ever called with no lookup under way. */
    method StartLookup(q: Query)
      requires mState == SamIdle && outstanding == []
      modifies this
      ensures View() == DoNameLookup(old(View()), q)
    {
      mState := SamNameLookup;
      streamName := CString(q.name);
      outstanding := outstanding + [q];
    }

    method OnSamConnect(e: Stream.Error, socketOpen: bool, closes: bool)
      requires Enabled(View(), SamConnected(e, socketOpen, closes)) && outstanding == []
      modifies this
      ensures View() == Step(old(View()), SamConnected(e, socketOpen, closes))
    {
      isOpen, closing := socketOpen, closes;
      mState := SamIdle;
      if e != Stream.NoError { return; }
      StartLookup(Query("ME", OnOpen));
    }

    /** The reply to the outstanding lookup arrived at the stream: it updates its name, calls
        on_name_lookup, and after an error that is not a RESULT it closes the socket as soon
        as that returns. */
    method OnLookupDone(e: Stream.Error, reply: Stream.Reply)
      requires |outstanding| == 1 && !closing
      modifies this
      ensures View() == Step(old(View()), LookupDone(e, reply))
    {
      hide Stream.LastValue;
      var q := outstanding[0];
      if Read(e, reply) {
        streamName := Stream.LastValue(reply.pairs, "VALUE", streamName);
      }
      outstanding := outstanding[1..];
      OnNameLookupReply(q, LookupError(e, reply));
      closing := !(Read(e, reply) && reply.wellFormed);
    }

    /** What handle_error does after the handler. */
    method CloseSocket()
      requires closing
      modifies this
      ensures View() == Step(old(View()), Closed)
    {
      isOpen, closing := false, false;
    }

    method OnNameLookupReply(q: Query, ec: Stream.Error)
      requires outstanding == []
      modifies this
      ensures View() == OnNameLookup(old(View()), q, ec)
    {
      mState := SamIdle;
      var name := streamName;
      if mNameLookup != [] {
        StartLookup(mNameLookup[0]);
        mNameLookup := mNameLookup[1..];
      }
      done := done + [Done(q, if ec != Stream.NoError then Failed(ec) else Found(CString(name)))];
    }
  }

  /** Driving the object by any run of events never starts a lookup while another is under
      way, and ends where the run of steps ends. */
  method Drive(c: I2pConnection, evs: seq<Event>, ghost waiting: seq<Query>)
    requires c.View() == Opened(waiting) && Runs(c.View(), evs)
    modifies c
    ensures c.View() == After(Opened(waiting), evs)
  {
    ghost var asked, replies := waiting, [];
    hide Step;
    for n := 0 to |evs|
      invariant Runs(c.View(), evs[n..])
      invariant After(c.View(), evs[n..]) == After(Opened(waiting), evs)
      invariant Serves(c.View(), asked, replies)
    {
      assert evs[n..][1..] == evs[n + 1..];
      StepServes(c.View(), evs[n], asked, replies);
      match evs[n] {
        case Request(name, id) => c.AsyncNameLookup(name, id);
        case SamConnected(e, isOpen, closes) => c.OnSamConnect(e, isOpen, closes);
        case LookupDone(e, reply) => c.OnLookupDone(e, reply);
        case Closed => c.CloseSocket();
      }
      asked, replies := AskedNext(asked, evs[n]), RepliesNext(replies, evs[n]);
    }
  }
}
