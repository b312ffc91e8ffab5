/** A pipelined HTTP/1.1 connection, driven by completions. */
module HttpSessions {

  const QUEUE_LIMIT: nat := 8

  datatype ErrorCode = Success | EndOfStream | Failure

  datatype Request = Request(isUpgrade: bool, target: string)

  datatype Reply = Reply(keepAlive: bool, payload: string)

  /**
   * reading counts the reads in flight, writing and writingLast the writes whose completion was bound to
   * keepAlive true and false.
   * handled lists every response in request order, started every response whose write was started.
   */
  datatype Session = Session(queue: seq<Reply>, reading: nat, writing: nat, writingLast: nat,
                             closed: bool, failed: bool, handedOver: bool,
                             handled: seq<Reply>, started: seq<Reply>, lastWritten: bool)

  const NEW_SESSION := Session([], 0, 0, 0, false, false, false, [], [], false)

  /** What the outside decides when a read completes: the request, whether the websocket hook takes it, the response. */
  datatype Incoming = Incoming(request: Request, hookTakes: bool, response: Reply)

  function DoRead(s: Session): Session {
    s.(reading := s.reading + 1)
  }

  function DoWrite(s: Session): Session {
    if s.queue == [] then s
    else
      var item := s.queue[0];
      s.(writing := if item.keepAlive then s.writing + 1 else s.writing,
         writingLast := if item.keepAlive then s.writingLast else s.writingLast + 1,
         started := s.started + [item])
  }

  function QueueWrite(s: Session, r: Reply): Session {
    var pushed := s.(queue := s.queue + [r], handled := s.handled + [r]);
    if |pushed.queue| == 1 then DoWrite(pushed) else pushed
  }

  function OnRead(s: Session, ec: ErrorCode, incoming: Incoming): Session
    requires s.reading > 0
  {
    var done := s.(reading := s.reading - 1);
    if ec == EndOfStream then done.(closed := true)
    else if ec != Success then done.(failed := true)
    else if done.queue == [] && incoming.request.isUpgrade && incoming.hookTakes then done.(handedOver := true)
    else
      var queued := QueueWrite(done, incoming.response);
      if |queued.queue| < QUEUE_LIMIT then DoRead(queued) else queued
  }

  /** Popping an empty queue is undefined in C++; here it does nothing, and WriteFindsItsReply rules it out. */
  function Popped(s: Session): Session {
    if s.queue == [] then s else s.(queue := s.queue[1..])
  }

  predicate InFlight(s: Session, keepAlive: bool) {
    if keepAlive then s.writing > 0 else s.writingLast > 0
  }

  function OnWrite(s: Session, keepAlive: bool, ec: ErrorCode): Session
    requires InFlight(s, keepAlive)
  {
    var done := if keepAlive then s.(writing := s.writing - 1) else s.(writingLast := s.writingLast - 1);
    if ec != Success then done.(failed := true)
    else if !keepAlive then done.(closed := true, lastWritten := true)
    else
      var resumed := if |done.queue| == QUEUE_LIMIT then DoRead(done) else done;
      DoWrite(Popped(resumed))
  }

  class HttpSession {
    var responseQueue: seq<Reply>
    var reading: nat
    var writing: nat
    var writingLast: nat
    var closed: bool
    var failed: bool
    var handedOver: bool
    ghost var handled: seq<Reply>
    ghost var started: seq<Reply>
    ghost var lastWritten: bool

    ghost function State(): Session
      reads this
    {
      Session(responseQueue, reading, writing, writingLast, closed, failed, handedOver, handled, started, lastWritten)
    }

    constructor ()
      ensures State() == NEW_SESSION
    {
      responseQueue, reading, writing, writingLast, closed, failed, handedOver := [], 0, 0, 0, false, false, false;
      handled, started, lastWritten := [], [], false;
    }

    method Run()
      modifies this
      ensures State() == DoRead(old(State()))
    {
      Read();
    }

    method Read()
      modifies this
      ensures State() == DoRead(old(State()))
    {
      reading := reading + 1;
    }

    method ReadDone(ec: ErrorCode, incoming: Incoming)
      requires reading > 0
      modifies this
      ensures State() == OnRead(old(State()), ec, incoming)
    {
      hide QueueWrite;
      reading := reading - 1;
      if ec == EndOfStream {
        Close();
        return;
      }
      if ec != Success {
        failed := true;
        return;
      }
      if responseQueue == [] && incoming.request.isUpgrade {
        if incoming.hookTakes {
          handedOver := true;
          return;
        }
      }
      Queue(incoming.response);
      if |responseQueue| < QUEUE_LIMIT {
        Read();
      }
    }

    method Queue(response: Reply)
      modifies this
      ensures State() == QueueWrite(old(State()), response)
    {
      responseQueue := responseQueue + [response];
      handled := handled + [response];
      if |responseQueue| == 1 {
        Write();
      }
    }

    method Write()
      modifies this
      ensures State() == DoWrite(old(State()))
    {
      if responseQueue == [] {
        return;
      }
      var item := responseQueue[0];
      started := started + [item];
      if item.keepAlive {
        writing := writing + 1;
      } else {
        writingLast := writingLast + 1;
      }
    }

    method WriteDone(keepAlive: bool, ec: ErrorCode)
      requires InFlight(State(), keepAlive) && responseQueue != []
      modifies this
      ensures State() == OnWrite(old(State()), keepAlive, ec)
    {
      if keepAlive {
        writing := writing - 1;
      } else {
        writingLast := writingLast - 1;
      }
      if ec != Success {
        failed := true;
        return;
      }
      if !keepAlive {
        lastWritten := true;
        Close();
        return;
      }
      if |responseQueue| == QUEUE_LIMIT {
        Read();
      }
      responseQueue := responseQueue[1..];
      Write();
    }

    method Close()
      modifies this
      ensures State() == old(State()).(closed := true)
    {
      closed := true;
    }
  }

  // ----- runs -----

  datatype Completion =
    | ReadCompletes(ec: ErrorCode, incoming: Incoming)
    | WriteCompletes(keepAlive: bool, ec: ErrorCode)

  predicate Possible(s: Session, c: Completion) {
    match c
    case ReadCompletes(_, _) => s.reading > 0
    case WriteCompletes(keepAlive, _) => InFlight(s, keepAlive)
  }

  function Step(s: Session, c: Completion): Session
    requires Possible(s, c)
  {
    match c
    case ReadCompletes(ec, incoming) => OnRead(s, ec, incoming)
    case WriteCompletes(keepAlive, ec) => OnWrite(s, keepAlive, ec)
  }

  ghost predicate IsRun(sessions: seq<Session>, completions: seq<Completion>) {
    && |sessions| == |completions| + 1
    && sessions[0] == DoRead(NEW_SESSION)
    && forall i: nat :: i < |completions| ==>
         Possible(sessions[i], completions[i]) && sessions[i + 1] == Step(sessions[i], completions[i])
  }

  predicate Open(s: Session) {
    !s.closed && !s.failed && !s.handedOver
  }

  predicate NoWrite(s: Session) {
    s.writing == 0 && s.writingLast == 0
  }

  predicate FrontIsWritten(s: Session)
    requires s.queue != []
  {
    if s.queue[0].keepAlive then s.writing == 1 && s.writingLast == 0 else s.writing == 0 && s.writingLast == 1
  }

  /** What was handled is what was started, then the queue; only the front of the queue is started, in flight or not. */
  ghost predicate QueueInv(s: Session) {
    && (if s.queue == [] then NoWrite(s) && s.started == s.handled && !s.lastWritten
        else
          && s.handled == s.started + s.queue[1..]
          && s.started != [] && s.started[|s.started| - 1] == s.queue[0]
          && (if NoWrite(s) then s.lastWritten || s.failed else FrontIsWritten(s) && !s.lastWritten))
    && (s.lastWritten ==> s.closed)
  }

  /** Reading pauses exactly while the queue is full. */
  ghost predicate ReadInv(s: Session) {
    && s.reading <= 1 && |s.queue| <= QUEUE_LIMIT
    && (s.reading == 1 ==> |s.queue| < QUEUE_LIMIT)
    && (Open(s) && s.reading == 0 ==> |s.queue| == QUEUE_LIMIT)
    && (s.handedOver ==> s.reading == 0 && s.queue == [])
  }

  ghost predicate Inv(s: Session) {
    QueueInv(s) && ReadInv(s)
  }

  lemma PushKeepsQueue(s: Session, r: Reply)
    requires QueueInv(s)
    ensures QueueInv(QueueWrite(s, r))
  {
    if s.queue != [] {
      assert (s.queue + [r])[1..] == s.queue[1..] + [r];
      assert s.handled + [r] == s.started + (s.queue[1..] + [r]);
    }
  }

  lemma PopKeepsQueue(s: Session)
    requires QueueInv(s) && s.queue != [] && FrontIsWritten(s) && s.queue[0].keepAlive
    ensures QueueInv(DoWrite(Popped(s.(writing := 0))))
  {
    var rest := s.queue[1..];
    if rest != [] {
      assert s.started + rest == s.started + [rest[0]] + rest[1..];
    }
  }

  /** The queue does not depend on the reads. */
  lemma SameQueue(s: Session, t: Session)
    requires QueueInv(s)
    requires t == s.(reading := t.reading, closed := t.closed, failed := t.failed, handedOver := t.handedOver)
    requires (s.closed ==> t.closed) && (s.failed ==> t.failed)
    ensures QueueInv(t)
  {
  }

  lemma OnReadKeepsInv(s: Session, ec: ErrorCode, incoming: Incoming)
    requires Inv(s) && s.reading > 0
    ensures Inv(OnRead(s, ec, incoming))
  {
    OnReadKeepsQueue(s, ec, incoming);
    OnReadKeepsReads(s, ec, incoming);
    hide OnRead, QueueInv, ReadInv;
  }

  lemma OnReadKeepsQueue(s: Session, ec: ErrorCode, incoming: Incoming)
    requires QueueInv(s) && s.reading > 0
    ensures QueueInv(OnRead(s, ec, incoming))
  {
    hide QueueInv, QueueWrite;
    var done := s.(reading := s.reading - 1);
    SameQueue(s, done);
    if ec == EndOfStream {
      SameQueue(done, done.(closed := true));
    } else if ec != Success {
      SameQueue(done, done.(failed := true));
    } else if done.queue == [] && incoming.request.isUpgrade && incoming.hookTakes {
      SameQueue(done, done.(handedOver := true));
    } else {
      var queued := QueueWrite(done, incoming.response);
      PushKeepsQueue(done, incoming.response);
      SameQueue(queued, DoRead(queued));
    }
  }

  lemma OnReadKeepsReads(s: Session, ec: ErrorCode, incoming: Incoming)
    requires ReadInv(s) && s.reading > 0
    ensures ReadInv(OnRead(s, ec, incoming))
  {
    PushKeepsReads(s.(reading := s.reading - 1), incoming.response);
    hide QueueWrite;
  }

  lemma PushKeepsReads(s: Session, r: Reply)
    ensures var t := QueueWrite(s, r);
      t.queue == s.queue + [r] && t.reading == s.reading
      && t.closed == s.closed && t.failed == s.failed && t.handedOver == s.handedOver
  {
  }

  lemma OnWriteKeepsInv(s: Session, keepAlive: bool, ec: ErrorCode)
    requires Inv(s) && InFlight(s, keepAlive)
    ensures Inv(OnWrite(s, keepAlive, ec))
  {
    OnWriteKeepsQueue(s, keepAlive, ec);
    OnWriteKeepsReads(s, keepAlive, ec);
    hide OnWrite, QueueInv, ReadInv;
  }

  lemma OnWriteKeepsQueue(s: Session, keepAlive: bool, ec: ErrorCode)
    requires QueueInv(s) && InFlight(s, keepAlive)
    ensures QueueInv(OnWrite(s, keepAlive, ec))
  {
    hide QueueInv, FrontIsWritten;
    FrontInFlight(s, keepAlive);
    if ec != Success {
      WriteFails(s, keepAlive, ec);
    } else if !keepAlive {
      LastIsWritten(s);
    } else {
      PopKeepsQueue(s);
      var after := DoWrite(Popped(s.(writing := 0)));
      SameQueue(after, DoRead(after));
      OneWrite(s);
    }
  }

  lemma WriteFails(s: Session, keepAlive: bool, ec: ErrorCode)
    requires QueueInv(s) && InFlight(s, keepAlive) && ec != Success
    ensures QueueInv(OnWrite(s, keepAlive, ec))
  {
  }

  lemma LastIsWritten(s: Session)
    requires QueueInv(s) && InFlight(s, false)
    ensures QueueInv(OnWrite(s, false, Success))
  {
  }

  lemma OneWrite(s: Session)
    requires s.queue != [] && FrontIsWritten(s) && s.queue[0].keepAlive
    ensures s.writing == 1
  {
  }

  lemma OnWriteKeepsReads(s: Session, keepAlive: bool, ec: ErrorCode)
    requires Inv(s) && InFlight(s, keepAlive)
    ensures ReadInv(OnWrite(s, keepAlive, ec))
  {
    FrontInFlight(s, keepAlive);
    hide QueueInv;
  }

  lemma FrontInFlight(s: Session, keepAlive: bool)
    requires QueueInv(s) && InFlight(s, keepAlive)
    ensures s.queue != [] && s.queue[0].keepAlive == keepAlive && FrontIsWritten(s)
  {
  }

  lemma StepKeepsInv(s: Session, c: Completion)
    requires Inv(s) && Possible(s, c)
    ensures Inv(Step(s, c))
  {
    hide *;
    StepUnfolds(s, c);
    match c
    case ReadCompletes(ec, incoming) => OnReadKeepsInv(s, ec, incoming);
    case WriteCompletes(keepAlive, ec) => OnWriteKeepsInv(s, keepAlive, ec);
  }

  lemma StepUnfolds(s: Session, c: Completion)
    requires Possible(s, c)
    ensures c.ReadCompletes? ==> s.reading > 0 && Step(s, c) == OnRead(s, c.ec, c.incoming)
    ensures c.WriteCompletes? ==> InFlight(s, c.keepAlive) && Step(s, c) == OnWrite(s, c.keepAlive, c.ec)
  {
  }

  lemma StartInv()
    ensures Inv(DoRead(NEW_SESSION))
  {
  }

  lemma {:induction false} RunKeepsInv(sessions: seq<Session>, completions: seq<Completion>, i: nat)
    requires IsRun(sessions, completions) && i < |sessions|
    ensures Inv(sessions[i])
  {
    hide Step, Inv, Possible;
    if i == 0 {
      StartInv();
    } else {
      RunKeepsInv(sessions, completions, i - 1);
      StepKeepsInv(sessions[i - 1], completions[i - 1]);
    }
  }

  /** In every run at most one read and one write are in flight, and the queue never exceeds its limit. */
  lemma FlightsAreBounded(sessions: seq<Session>, completions: seq<Completion>, i: nat)
    requires IsRun(sessions, completions) && i < |sessions|
    ensures sessions[i].reading <= 1 && sessions[i].writing + sessions[i].writingLast <= 1
    ensures |sessions[i].queue| <= 8
  {
    hide Step;
    RunKeepsInv(sessions, completions, i);
  }

  /** In every run responses are written in request order, each at most once. */
  lemma WritesFollowRequests(sessions: seq<Session>, completions: seq<Completion>, i: nat)
    requires IsRun(sessions, completions) && i < |sessions|
    ensures sessions[i].started <= sessions[i].handled
  {
    hide Step;
    RunKeepsInv(sessions, completions, i);
  }

  /** While a session is open something is in flight, so it cannot stall. */
  lemma OpenSessionIsBusy(sessions: seq<Session>, completions: seq<Completion>, i: nat)
    requires IsRun(sessions, completions) && i < |sessions| && Open(sessions[i])
    ensures sessions[i].reading == 1 || sessions[i].writing + sessions[i].writingLast == 1
    ensures |sessions[i].queue| < 8 <==> sessions[i].reading == 1
    ensures sessions[i].queue != [] <==> sessions[i].writing + sessions[i].writingLast == 1
  {
    hide Step;
    RunKeepsInv(sessions, completions, i);
  }

  /** A completed write always finds its own response at the front of the queue. */
  lemma WriteFindsItsReply(sessions: seq<Session>, completions: seq<Completion>, i: nat, keepAlive: bool)
    requires IsRun(sessions, completions) && i < |sessions| && InFlight(sessions[i], keepAlive)
    ensures sessions[i].queue != [] && sessions[i].queue[0].keepAlive == keepAlive
    ensures sessions[i].started != [] && sessions[i].started[|sessions[i].started| - 1] == sessions[i].queue[0]
  {
    hide Step;
    RunKeepsInv(sessions, completions, i);
  }

  lemma StepAfterLast(s: Session, c: Completion)
    requires Inv(s) && Possible(s, c) && s.lastWritten
    ensures Step(s, c).lastWritten && Step(s, c).started == s.started && NoWrite(Step(s, c))
  {
  }

  /** Once a response without keep-alive was written, no write starts, whatever reads complete. */
  lemma {:induction false} NothingAfterLast(sessions: seq<Session>, completions: seq<Completion>, i: nat, j: nat)
    requires IsRun(sessions, completions) && i <= j < |sessions| && sessions[i].lastWritten
    ensures sessions[j].lastWritten && sessions[j].started == sessions[i].started && NoWrite(sessions[j])
    decreases j
  {
    hide Step;
    RunKeepsInv(sessions, completions, i);
    if i < j {
      hide Inv;
      NothingAfterLast(sessions, completions, i, j - 1);
      RunKeepsInv(sessions, completions, j - 1);
      StepAfterLast(sessions[j - 1], completions[j - 1]);
    }
  }

  lemma StepHandsOver(s: Session, c: Completion)
    requires Possible(s, c) && !s.handedOver && Step(s, c).handedOver
    ensures c.ReadCompletes? && s.queue == [] && Step(s, c) == s.(reading := s.reading - 1, handedOver := true)
  {
  }

  /** The socket is handed over only when every write is completed, and nothing is in flight after it. */
  lemma HandOverIsClean(sessions: seq<Session>, completions: seq<Completion>, i: nat)
    requires IsRun(sessions, completions) && i < |completions| && !sessions[i].handedOver && sessions[i + 1].handedOver
    ensures completions[i].ReadCompletes? && NoWrite(sessions[i])
    ensures sessions[i + 1].reading == 0 && NoWrite(sessions[i + 1])
    ensures sessions[i + 1].started == sessions[i + 1].handled
  {
    hide Step;
    RunKeepsInv(sessions, completions, i);
    RunKeepsInv(sessions, completions, i + 1);
    StepHandsOver(sessions[i], completions[i]);
  }

  // ----- what the completions alone tell -----

  predicate ReadsEnd(c: Completion) {
    c.ReadCompletes? && c.ec == EndOfStream
  }

  predicate WritesLast(c: Completion) {
    c.WriteCompletes? && !c.keepAlive && c.ec == Success
  }

  /** Any error but the end of the stream, which only a read reports. */
  predicate Fails(c: Completion) {
    if c.ReadCompletes? then c.ec == Failure else c.ec != Success
  }

  /** The responses written so far, but for one that was the last. */
  function Written(cs: seq<Completion>): nat {
    if cs == [] then 0
    else
      var c := cs[|cs| - 1];
      Written(cs[..|cs| - 1]) + if c.WriteCompletes? && c.keepAlive && c.ec == Success then 1 else 0
  }

  /** The read after the first completions brought an upgrade that the hook takes, with nothing left to write. */
  predicate TakesOver(before: seq<Completion>, c: Completion)
    decreases |before|, 1
  {
    && c.ReadCompletes? && c.ec == Success && c.incoming.request.isUpgrade && c.incoming.hookTakes
    && |Responses(before)| == Written(before)
  }

  /** The responses of all requests that were read, in order. */
  function Responses(cs: seq<Completion>): seq<Reply>
    decreases |cs|, 0
  {
    if cs == [] then []
    else
      var before, c := cs[..|cs| - 1], cs[|cs| - 1];
      var was := Responses(before);
      if c.ReadCompletes? && c.ec == Success && !TakesOver(before, c) then was + [c.incoming.response] else was
  }

  /** What one completion does to the flags and to the queue. */
  ghost predicate Does(s: Session, c: Completion, after: Session) {
    var taken := c.ReadCompletes? && c.ec == Success && c.incoming.request.isUpgrade && c.incoming.hookTakes
                 && s.queue == [];
    && (after.closed <==> s.closed || ReadsEnd(c) || WritesLast(c))
    && (after.failed <==> s.failed || Fails(c))
    && (after.lastWritten <==> s.lastWritten || WritesLast(c))
    && (after.handedOver <==> s.handedOver || taken)
    && after.handled == (if c.ReadCompletes? && c.ec == Success && !taken
                         then s.handled + [c.incoming.response] else s.handled)
    && after.queue == (if c.ReadCompletes? && c.ec == Success && !taken then s.queue + [c.incoming.response]
                       else if c.WriteCompletes? && c.keepAlive && c.ec == Success && s.queue != [] then s.queue[1..]
                       else s.queue)
    && (c.WriteCompletes? ==> s.queue != [])
  }

  lemma ReadDoes(s: Session, ec: ErrorCode, incoming: Incoming)
    requires s.reading > 0
    ensures Does(s, ReadCompletes(ec, incoming), OnRead(s, ec, incoming))
  {
  }

  lemma WriteDoes(s: Session, keepAlive: bool, ec: ErrorCode)
    requires Inv(s) && InFlight(s, keepAlive)
    ensures Does(s, WriteCompletes(keepAlive, ec), OnWrite(s, keepAlive, ec))
  {
    FrontInFlight(s, keepAlive);
    hide Inv, QueueInv, ReadInv;
  }

  lemma StepDoes(s: Session, c: Completion)
    requires Inv(s) && Possible(s, c)
    ensures Does(s, c, Step(s, c))
  {
    hide Does, OnRead, OnWrite, Inv;
    StepUnfolds(s, c);
    match c
    case ReadCompletes(ec, incoming) => ReadDoes(s, ec, incoming);
    case WriteCompletes(keepAlive, ec) => WriteDoes(s, keepAlive, ec);
  }

  /** The queue is what was handled and not yet written: all of it told by the completions. */
  lemma {:induction false} QueueIsUnwritten(sessions: seq<Session>, completions: seq<Completion>, i: nat)
    requires IsRun(sessions, completions) && i < |sessions|
    ensures sessions[i].handled == Responses(completions[..i])
    ensures Written(completions[..i]) <= |sessions[i].handled|
    ensures sessions[i].queue == sessions[i].handled[Written(completions[..i])..]
  {
    hide Step, Inv, Possible;
    if i > 0 {
      QueueIsUnwritten(sessions, completions, i - 1);
      RunKeepsInv(sessions, completions, i - 1);
      StepDoes(sessions[i - 1], completions[i - 1]);
      assert completions[..i][..i - 1] == completions[..i - 1];
    }
  }

  ghost predicate SomeCloses(cs: seq<Completion>, i: nat)
    requires i <= |cs|
  {
    exists k: nat :: k < i && (ReadsEnd(cs[k]) || WritesLast(cs[k]))
  }

  ghost predicate SomeFails(cs: seq<Completion>, i: nat)
    requires i <= |cs|
  {
    exists k: nat :: k < i && Fails(cs[k])
  }

  ghost predicate SomeWritesLast(cs: seq<Completion>, i: nat)
    requires i <= |cs|
  {
    exists k: nat :: k < i && WritesLast(cs[k])
  }

  ghost predicate SomeTakesOver(cs: seq<Completion>, i: nat)
    requires i <= |cs|
  {
    exists k: nat :: k < i && TakesOver(cs[..k], cs[k])
  }

  lemma OneMoreCompletion(cs: seq<Completion>, i: nat)
    requires i < |cs|
    ensures SomeCloses(cs, i + 1) <==> SomeCloses(cs, i) || ReadsEnd(cs[i]) || WritesLast(cs[i])
    ensures SomeFails(cs, i + 1) <==> SomeFails(cs, i) || Fails(cs[i])
    ensures SomeWritesLast(cs, i + 1) <==> SomeWritesLast(cs, i) || WritesLast(cs[i])
    ensures SomeTakesOver(cs, i + 1) <==> SomeTakesOver(cs, i) || TakesOver(cs[..i], cs[i])
  {
    hide ReadsEnd, WritesLast, Fails, TakesOver;
  }

  /** In every run, a session is closed, failed, done with its last response or handed over exactly when some completion
      before said so. */
  lemma {:induction false} FlagsAreTold(sessions: seq<Session>, completions: seq<Completion>, i: nat)
    requires IsRun(sessions, completions) && i < |sessions|
    ensures sessions[i].closed <==> SomeCloses(completions, i)
    ensures sessions[i].failed <==> SomeFails(completions, i)
    ensures sessions[i].lastWritten <==> SomeWritesLast(completions, i)
    ensures sessions[i].handedOver <==> SomeTakesOver(completions, i)
  {
    hide Step, Inv, Possible, ReadsEnd, WritesLast, Fails, Responses, Written, TakesOver;
    if i > 0 {
      hide SomeCloses, SomeFails, SomeWritesLast, SomeTakesOver;
      FlagsAreTold(sessions, completions, i - 1);
      OneMoreCompletion(completions, i - 1);
      RunKeepsInv(sessions, completions, i - 1);
      StepDoes(sessions[i - 1], completions[i - 1]);
      QueueIsUnwritten(sessions, completions, i - 1);
      TakesOverMeans(sessions[i - 1], completions[..i - 1], completions[i - 1]);
    }
  }

  lemma TakesOverMeans(s: Session, before: seq<Completion>, c: Completion)
    requires s.handled == Responses(before) && Written(before) <= |s.handled| && s.queue == s.handled[Written(before)..]
    ensures TakesOver(before, c) <==>
            c.ReadCompletes? && c.ec == Success && c.incoming.request.isUpgrade && c.incoming.hookTakes && s.queue == []
  {
    hide Responses, Written;
  }

  /** Neither an error nor the end of the stream, a response that closes, or an upgrade that is taken. */
  ghost predicate GoesOn(completions: seq<Completion>, i: nat)
    requires i <= |completions|
  {
    forall k: nat :: k < i ==>
      && !ReadsEnd(completions[k]) && !Fails(completions[k]) && !WritesLast(completions[k])
      && !TakesOver(completions[..k], completions[k])
  }

  /** As long as all goes well the session is open, and whenever no write is in flight every response was written. */
  lemma Progress(sessions: seq<Session>, completions: seq<Completion>, i: nat)
    requires IsRun(sessions, completions) && i < |sessions| && GoesOn(completions, i)
    ensures Open(sessions[i])
    ensures NoWrite(sessions[i]) ==>
              sessions[i].started == sessions[i].handled == Responses(completions[..i])
              && |sessions[i].handled| == Written(completions[..i])
  {
    hide Step, Possible, ReadsEnd, WritesLast, Fails, Responses, Written, TakesOver;
    FlagsAreTold(sessions, completions, i);
    QueueIsUnwritten(sessions, completions, i);
    RunKeepsInv(sessions, completions, i);
  }
}
