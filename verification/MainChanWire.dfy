/**
 What the main channel counts against what is really on the wire.

 A legal run is one in which every reply answers a request that was sent.  The
 channel's queue is what is waiting in every legal run exactly when everything it
 counts goes out; where an opening request does not, no legal run is ever ready.
 */
module MainChannelWire {
  import opened Marshal
  import opened MainChannelSpec

  // ----- what is really on the wire

  /** The requests that went out and have had no reply. */
  function Waiting(log: seq<Action>): seq<Request> {
    if |Credited(log)| <= |Sent(log)| then Sent(log)[|Credited(log)|..] else []
  }

  /** The connection hands over a reply only while a sent request is unanswered. */
  predicate Legal(setup: Setup, events: seq<Event>) {
    events != [] ==>
      && Legal(setup, events[..|events| - 1])
      && (events[|events| - 1].Reply? ==> Waiting(Run(setup, events[..|events| - 1]).log) != [])
  }

  /** Everything counted while opening goes out. */
  predicate OpeningGoesOut(setup: Setup) {
    (setup.env == [] || setup.canEnv) && (Retries(setup) ==> CanSendFallback(setup))
  }

  /** So does a fallback asked for later. */
  predicate EverythingGoesOut(setup: Setup) {
    setup.session ==> OpeningGoesOut(setup) && (Retries(setup) || setup.hasFallback ==> CanSendFallback(setup))
  }

  function Sendable(setup: Setup, rs: seq<Request>): seq<Request> {
    if rs == [] then []
    else
      var r := rs[|rs| - 1];
      Sendable(setup, rs[..|rs| - 1]) + If(CanSend(setup, r), r)
  }

  lemma {:induction false} SendableIsAll(setup: Setup, rs: seq<Request>)
    ensures |Sendable(setup, rs)| <= |rs|
    ensures (forall i :: 0 <= i < |rs| ==> CanSend(setup, rs[i])) <==> Sendable(setup, rs) == rs
    ensures Sendable(setup, rs) == rs <==> |Sendable(setup, rs)| == |rs|
  {
    if rs != [] {
      var n := |rs| - 1;
      SendableIsAll(setup, rs[..n]);
      assert rs == rs[..n] + [rs[n]];
      assert |Sendable(setup, rs)| <= |rs[..n]| + 1;
      if Sendable(setup, rs) == rs {
        assert |Sendable(setup, rs[..n])| == n && CanSend(setup, rs[n]);
      }
    }
  }

  lemma OpeningCanSend(setup: Setup)
    ensures (forall i :: 0 <= i < |OpeningRequests(setup)| ==> CanSend(setup, OpeningRequests(setup)[i])) <==> OpeningGoesOut(setup)
  {
    var rs := OpeningRequests(setup);
    var head := If(setup.x11, X11) + If(setup.agent, Agent) + If(setup.pty, Pty);
    var envs := Envs(0, |setup.env|);
    hide CanSendFallback;
    assert rs == head + envs + [FinalRequest(setup)];
    PartsCanSend(setup, head, envs, FinalRequest(setup));
    assert forall i :: 0 <= i < |head| ==> CanSend(setup, head[i]);
    assert setup.env != [] ==> envs[0] == Env(0);
  }

  lemma PartsCanSend(setup: Setup, head: seq<Request>, envs: seq<Request>, last: Request)
    ensures var rs := head + envs + [last];
      (forall i :: 0 <= i < |rs| ==> CanSend(setup, rs[i])) <==>
      (forall i :: 0 <= i < |head| ==> CanSend(setup, head[i]))
      && (forall i :: 0 <= i < |envs| ==> CanSend(setup, envs[i])) && CanSend(setup, last)
  {
    hide CanSend;
    var rs := head + envs + [last];
    if forall i :: 0 <= i < |rs| ==> CanSend(setup, rs[i]) {
      assert forall i :: 0 <= i < |head| ==> head[i] == rs[i];
      assert forall i :: 0 <= i < |envs| ==> envs[i] == rs[|head| + i];
      assert rs[|rs| - 1] == last;
    }
  }

  lemma OpeningSendable(setup: Setup)
    ensures Sendable(setup, OpeningRequests(setup)) == OpeningRequests(setup) <==> OpeningGoesOut(setup)
  {
    hide OpeningRequests, CanSend, OpeningGoesOut;
    SendableIsAll(setup, OpeningRequests(setup));
    OpeningCanSend(setup);
  }

  /** What the log says of the requests, and whether it holds Ready or Abort. */
  predicate Reads(log: seq<Action>, counted: seq<Request>, sent: seq<Request>, credited: seq<Request>, ended: bool) {
    && Counted(log) == counted && Sent(log) == sent && Credited(log) == credited
    && ended == (Ready in log || Abort in log)
  }

  lemma ReadsAppend(log: seq<Action>, c: seq<Request>, s: seq<Request>, k: seq<Request>, ended: bool, a: Action)
    requires Reads(log, c, s, k, ended)
    ensures Reads(log + [a], if a.Send? then c + [a.request] else c,
      if a.Send? && a.sent then s + [a.request] else s,
      if a.Credit? then k + [a.request] else k, ended || a == Ready || a == Abort)
  {
    Appended(log, a);
  }

  /** A batch of requests in the log. */
  lemma {:induction false} SendsRead(
      setup: Setup, log: seq<Action>, rs: seq<Request>, c: seq<Request>, s: seq<Request>, k: seq<Request>, ended: bool)
    requires Reads(log, c, s, k, ended)
    ensures Reads(log + Sends(setup, rs), c + rs, s + Sendable(setup, rs), k, ended)
  {
    hide Reads, CanSend;
    if rs == [] {
      assert log + Sends(setup, rs) == log && c + rs == c && s + Sendable(setup, rs) == s;
    } else {
      var n := |rs| - 1;
      var r := rs[n];
      var can := CanSend(setup, r);
      SendsRead(setup, log, rs[..n], c, s, k, ended);
      ReadsAppend(log + Sends(setup, rs[..n]), c + rs[..n], s + Sendable(setup, rs[..n]), k, ended, Send(r, can));
      Assoc(log, Sends(setup, rs[..n]), [Send(r, can)]);
      assert c + rs == c + rs[..n] + [r];
      assert s + Sendable(setup, rs)
        == if can then s + Sendable(setup, rs[..n]) + [r] else s + Sendable(setup, rs[..n]);
    }
  }

  // ----- when the queue is what is waiting

  /** Nothing but sent requests is counted. */
  predicate AllSent(log: seq<Action>) {
    forall i :: 0 <= i < |log| && log[i].Send? ==> log[i].sent
  }

  lemma {:induction false} AllSentMeans(log: seq<Action>)
    requires AllSent(log)
    ensures Sent(log) == Counted(log)
  {
    if log != [] {
      AllSentMeans(log[..|log| - 1]);
    }
  }

  lemma {:induction false} SendsAllSent(setup: Setup, rs: seq<Request>)
    requires Sendable(setup, rs) == rs
    ensures AllSent(Sends(setup, rs))
  {
    if rs != [] {
      var n := |rs| - 1;
      SendableIsAll(setup, rs);
      SendableIsAll(setup, rs[..n]);
      SendsAllSent(setup, rs[..n]);
    }
  }

  /** Where everything goes out, the queue is exactly what is waiting, and the k-th
      reply is credited to the k-th request sent. */
  lemma {:induction false} QueueIsWaiting(setup: Setup, events: seq<Event>)
    requires EverythingGoesOut(setup)
    ensures var s := Run(setup, events);
      s.queue == Waiting(s.log) && Credited(s.log) <= Sent(s.log) == Counted(s.log)
  {
    hide Inv, Run, EverythingGoesOut;
    EverythingSent(setup, events);
    RunsInWords(setup, events);
    AllSentMeans(Run(setup, events).log);
  }

  lemma {:induction false} EverythingSent(setup: Setup, events: seq<Event>)
    requires EverythingGoesOut(setup)
    ensures AllSent(Run(setup, events).log) && (setup.session || Run(setup, events).queue == [])
  {
    if events != [] {
      hide Step, EverythingGoesOut;
      var n := |events| - 1;
      EverythingSent(setup, events[..n]);
      SentStep(setup, Run(setup, events[..n]), events[n]);
    }
  }

  lemma SentStep(setup: Setup, s: State, e: Event)
    requires EverythingGoesOut(setup) && AllSent(s.log) && (setup.session || s.queue == [])
    ensures AllSent(Step(setup, s, e).log) && (setup.session || Step(setup, s, e).queue == [])
  {
    match e
    case Opened =>
      hide OpeningRequests, EofIn, Answered;
      if !s.isOpen && setup.session {
        OpeningSendable(setup);
        SendsAllSent(setup, OpeningRequests(setup));
      }
    case Reply(success) =>
      hide Answered, AllSent, OpeningRequests;
      if s.queue != [] {
        SentAnswered(setup, s, success);
      }
    case RemoteEof(_) => hide EofIn, Answered, OpeningRequests;
    case UserEof => hide EofIn, Answered, OpeningRequests;
  }

  lemma SentAnswered(setup: Setup, s: State, success: bool)
    requires EverythingGoesOut(setup) && AllSent(s.log) && setup.session && s.queue != []
    ensures AllSent(Answered(setup, s, success).log)
  {
    hide Refusals, EofIn, Sends;
    SendsOne(setup, Fallback);
  }

  // ----- how far a session gets

  function Successes(n: nat): seq<Event> {
    if n == 0 then [] else Successes(n - 1) + [Reply(true)]
  }

  /** The first n opening requests have been answered with success. */
  predicate Answering(setup: Setup, s: State, n: nat)
    requires n <= |OpeningRequests(setup)|
  {
    var rs := OpeningRequests(setup);
    && s.queue == rs[n..]
    && Reads(s.log, rs, rs, rs[..n], n == |rs|)
    && (Ready in s.log <==> n == |rs|)
  }

  predicate Reached(setup: Setup, events: seq<Event>, n: nat) {
    n <= |OpeningRequests(setup)| && Legal(setup, events) && Answering(setup, Run(setup, events), n)
  }

  /** With everything sent on opening, n successful replies answer the first n
      requests, and the command's makes the channel ready. */
  lemma {:induction false} AllSucceed(setup: Setup, n: nat)
    requires setup.session && OpeningGoesOut(setup) && n <= |OpeningRequests(setup)|
    ensures Reached(setup, [Opened] + Successes(n), n)
  {
    hide OpeningRequests, Reached, OpeningGoesOut;
    if n == 0 {
      NoneAnswered(setup);
    } else {
      AllSucceed(setup, n - 1);
      OneMore(setup, [Opened] + Successes(n - 1), n - 1);
      Assoc([Opened], Successes(n - 1), [Reply(true)]);
    }
  }

  lemma OneMore(setup: Setup, events: seq<Event>, n: nat)
    requires n < |OpeningRequests(setup)| && Reached(setup, events, n)
    ensures Reached(setup, events + [Reply(true)], n + 1)
  {
    SuccessStep(setup, Run(setup, events), n);
    RunAppend(setup, events, Reply(true));
    hide *;
    ReachedIs(setup, events + [Reply(true)], n + 1);
  }

  lemma ReachedIs(setup: Setup, events: seq<Event>, n: nat)
    requires n <= |OpeningRequests(setup)| && Legal(setup, events) && Answering(setup, Run(setup, events), n)
    ensures Reached(setup, events, n)
  {
  }

  lemma RunAppend(setup: Setup, events: seq<Event>, e: Event)
    ensures Run(setup, events + [e]) == Step(setup, Run(setup, events), e)
    ensures Legal(setup, events + [e])
       <==> Legal(setup, events) && (e.Reply? ==> Waiting(Run(setup, events).log) != [])
  {
    hide Step, Waiting;
    assert (events + [e])[..|events|] == events;
  }

  lemma NoneAnswered(setup: Setup)
    requires setup.session && OpeningGoesOut(setup)
    ensures Reached(setup, [Opened] + Successes(0), 0)
  {
    hide OpeningRequests, Reads, OpeningGoesOut, Step;
    assert [Opened] + Successes(0) == [] + [Opened] == [Opened];
    RunAppend(setup, [], Opened);
    OpenedOnly(setup);
    OpeningSendable(setup);
    OpeningEnds(setup, 0);
  }

  lemma StillWaiting(log: seq<Action>, rs: seq<Request>, n: nat)
    requires n < |rs| && Reads(log, rs, rs, rs[..n], false)
    ensures Waiting(log) != []
  {
  }

  /** The state after opening. */
  lemma OpenedOnly(setup: Setup)
    requires setup.session
    ensures var s := Step(setup, START, Opened);
      && s.queue == OpeningRequests(setup) && s.isOpen
      && Reads(s.log, OpeningRequests(setup), Sendable(setup, OpeningRequests(setup)), [], false)
      && Ready !in s.log
  {
    hide OpeningRequests, Reads;
    var rs := OpeningRequests(setup);
    StartReads();
    SendsRead(setup, [], rs, [], [], [], false);
    assert [] + rs == rs && [] + Sendable(setup, rs) == Sendable(setup, rs) && [] + Sends(setup, rs) == Sends(setup, rs);
    ReadsNotReady(Sends(setup, rs), rs, Sendable(setup, rs), []);
  }

  lemma StartReads()
    ensures Reads([], [], [], [], false)
  {
  }

  lemma ReadsNotReady(log: seq<Action>, c: seq<Request>, s: seq<Request>, k: seq<Request>)
    requires Reads(log, c, s, k, false)
    ensures Ready !in log && Abort !in log
  {
  }

  lemma SuccessStep(setup: Setup, s: State, n: nat)
    requires n < |OpeningRequests(setup)| && Answering(setup, s, n)
    ensures Waiting(s.log) != [] && Answering(setup, Step(setup, s, Reply(true)), n + 1)
  {
    OpeningEnds(setup, n);
    hide OpeningRequests, Reads, EofIn, Refusals, Answered, Waiting;
    var rs := OpeningRequests(setup);
    StillWaiting(s.log, rs, n);
    ReadsNotReady(s.log, rs, rs, rs[..n]);
    ReadsAppend(s.log, rs, rs, rs[..n], false, Credit(rs[n], true));
    assert rs[n..][1..] == rs[n + 1..] && rs[n..][0] == rs[n] && rs[..n] + [rs[n]] == rs[..n + 1];
    if IsCommand(rs[n]) {
      CommandSucceeds(setup, s, rs[n], rs, rs[..n + 1]);
    } else {
      OtherAnswered(setup, s, true, rs, rs, rs[..n + 1]);
      ReadsNotReady(Answered(setup, s, true).log, rs, rs, rs[..n + 1]);
    }
  }

  lemma OtherAnswered(setup: Setup, s: State, success: bool,
      c: seq<Request>, sent: seq<Request>, k: seq<Request>)
    requires s.queue != [] && !IsCommand(s.queue[0])
    requires Reads(s.log + [Credit(s.queue[0], success)], c, sent, k, false)
    ensures var t := Answered(setup, s, success);
      t.queue == s.queue[1..] && t.isOpen == s.isOpen && Reads(t.log, c, sent, k, false)
  {
    hide Refusals, Reads, EofIn, BecomeReady, SendAll;
    var r := s.queue[0];
    var l := s.log + [Credit(r, success)];
    if r.Env? {
      var m := if success || r.j >= |setup.env| then l else l + [EnvRefused(setup.env[r.j])];
      if m != l {
        ReadsAppend(l, c, sent, k, false, EnvRefused(setup.env[r.j]));
      }
      ReadsAppend(m, c, sent, k, false, EnvDone(Summary(Refusals(m), |setup.env|)));
    }
  }

  lemma CommandSucceeds(setup: Setup, s: State, r: Request, rs: seq<Request>, k: seq<Request>)
    requires s.queue != [] && s.queue[0] == r && IsCommand(r)
    requires Reads(s.log + [Credit(r, true)], rs, rs, k, false)
    ensures var t := Answered(setup, s, true);
      t.queue == s.queue[1..] && Reads(t.log, rs, rs, k, true) && Ready in t.log
  {
    hide Refusals, Reads, EofIn, SendAll;
    var l := s.log + [Credit(r, true)];
    var m := if r.Fallback? then l + [GotFallback] else l;
    ReadsAppend(l, rs, rs, k, false, GotFallback);
    ReadsAppend(m, rs, rs, k, false, Ready);
    ReadsAppend(m + [Ready], rs, rs, k, true, WriteEof(true));
  }

  lemma OpeningEnds(setup: Setup, n: nat)
    ensures |OpeningRequests(setup)| > 0
    ensures n < |OpeningRequests(setup)| ==>
      (IsCommand(OpeningRequests(setup)[n]) <==> n == |OpeningRequests(setup)| - 1)
    ensures OpeningRequests(setup)[|OpeningRequests(setup)| - 1] == FinalRequest(setup)
  {
  }

  // ----- where something is counted that does not go out

  predicate EncodesWaiting(s: State) {
    s.queue == Waiting(s.log)
  }

  /** A legal run in which the queue is not what is waiting. */
  lemma SomethingUnsent(setup: Setup) returns (events: seq<Event>)
    requires !EverythingGoesOut(setup)
    ensures Legal(setup, events) && !EncodesWaiting(Run(setup, events))
  {
    var rs := OpeningRequests(setup);
    if !OpeningGoesOut(setup) {
      hide OpeningRequests, OpeningGoesOut;
      events := [Opened];
      RunAppend(setup, [], Opened);
      assert [] + [Opened] == [Opened];
      OpenedOnly(setup);
      OpeningSendable(setup);
      SendableIsAll(setup, rs);
    } else {
      var n := |rs| - 1;
      OpeningEnds(setup, n);
      AllSucceed(setup, n);
      var before := [Opened] + Successes(n);
      events := before + [Reply(false)];
      assert rs[n] == Primary && setup.hasFallback && !CanSendFallback(setup);
      hide OpeningRequests, OpeningGoesOut, Legal, Run;
      RunAppend(setup, before, Reply(false));
      FallbackUnsent(setup, Run(setup, before), n);
    }
  }

  /** The primary command is refused and the fallback cannot be sent. */
  lemma FallbackUnsent(setup: Setup, s: State, n: nat)
    requires n == |OpeningRequests(setup)| - 1 && Answering(setup, s, n) && OpeningRequests(setup)[n] == Primary
    requires setup.hasFallback && !CanSendFallback(setup)
    ensures Waiting(s.log) != [] && !EncodesWaiting(Step(setup, s, Reply(false)))
  {
    hide OpeningRequests, Reads, Refusals, EofIn;
    var rs := OpeningRequests(setup);
    StillWaiting(s.log, rs, n);
    var l := s.log + [Credit(Primary, false)];
    ReadsAppend(s.log, rs, rs, rs[..n], false, Credit(Primary, false));
    assert rs[..n] + [Primary] == rs;
    ReadsAppend(l, rs, rs, rs, false, Send(Fallback, false));
    SendsOne(setup, Fallback);
    assert s.queue == [Primary] && s.queue[1..] == [];
    var t := Step(setup, s, Reply(false));
    assert t.queue == [Fallback] && t.log == l + [Send(Fallback, false)];
    NothingWaits(t.log, rs + [Fallback], rs);
  }

  lemma NothingWaits(log: seq<Action>, c: seq<Request>, rs: seq<Request>)
    requires Reads(log, c, rs, rs, false)
    ensures Waiting(log) == []
  {
  }

  /** In every legal run the queue is what is really waiting if and only if the
      setup counts nothing that does not go out. */
  lemma QueueIsWaitingExactly(setup: Setup)
    ensures (forall events :: Legal(setup, events) ==> EncodesWaiting(Run(setup, events))) <==> EverythingGoesOut(setup)
  {
    hide EverythingGoesOut, Run, Legal;
    if EverythingGoesOut(setup) {
      forall events ensures EncodesWaiting(Run(setup, events)) {
        QueueIsWaiting(setup, events);
      }
    } else {
      var events := SomethingUnsent(setup);
    }
  }

  /** Only the opening requests rs have been counted; k replies have come, fewer
      than it would take to reach the command. */
  predicate StalledAt(s: State, rs: seq<Request>, sent: seq<Request>, k: nat) {
    k <= |sent| && k <= |rs| && s.queue == rs[k..] && Reads(s.log, rs, sent, rs[..k], false)
  }

  predicate Stalled(setup: Setup, s: State) {
    if !s.isOpen then s.queue == [] && Reads(s.log, [], [], [], false)
    else StalledAt(s, OpeningRequests(setup), Sendable(setup, OpeningRequests(setup)), |Credited(s.log)|)
  }

  lemma StalledStep(setup: Setup, s: State, e: Event)
    requires setup.session && !OpeningGoesOut(setup) && Stalled(setup, s)
    requires e.Reply? ==> Waiting(s.log) != []
    ensures Stalled(setup, Step(setup, s, e))
  {
    var rs, k := OpeningRequests(setup), |Credited(s.log)|;
    OpeningSendable(setup);
    SendableIsAll(setup, rs);
    match e
    case Opened =>
      if !s.isOpen {
        StalledOpening(setup, s);
      }
    case Reply(success) =>
      StalledReply(setup, s, success);
    case RemoteEof(_) =>
      hide OpeningRequests, OpeningGoesOut, Reads, EofIn;
      StalledSay(setup, s, WriteEof(false));
    case UserEof =>
      hide OpeningRequests, OpeningGoesOut, Reads, EofIn;
      StalledSay(setup, s, WriteEof(true));
  }

  lemma StalledSay(setup: Setup, s: State, a: Action)
    requires Stalled(setup, s) && a.WriteEof?
    ensures Stalled(setup, Do(s, a))
  {
    hide OpeningRequests, Reads;
    var rs, k := OpeningRequests(setup), |Credited(s.log)|;
    Appended(s.log, a);
    if s.isOpen {
      ReadsAppend(s.log, rs, Sendable(setup, rs), rs[..k], false, a);
    } else {
      ReadsAppend(s.log, [], [], [], false, a);
    }
  }

  lemma StalledOpening(setup: Setup, s: State)
    requires setup.session && Stalled(setup, s) && !s.isOpen
    ensures Stalled(setup, Step(setup, s, Opened))
  {
    hide OpeningRequests, Reads;
    var rs := OpeningRequests(setup);
    SendsRead(setup, s.log, rs, [], [], [], false);
    assert [] + rs == rs && [] + Sendable(setup, rs) == Sendable(setup, rs);
    NoneCredited(s.log + Sends(setup, rs), rs, Sendable(setup, rs));
  }

  lemma NoneCredited(log: seq<Action>, c: seq<Request>, s: seq<Request>)
    requires Reads(log, c, s, [], false)
    ensures Credited(log) == []
  {
  }

  lemma StalledReply(setup: Setup, s: State, success: bool)
    requires Stalled(setup, s) && Waiting(s.log) != []
    requires |Sendable(setup, OpeningRequests(setup))| < |OpeningRequests(setup)|
    ensures Stalled(setup, Step(setup, s, Reply(success)))
  {
    hide *;
    var rs, k := OpeningRequests(setup), |Credited(s.log)|;
    var sent := Sendable(setup, rs);
    WaitingMeans(setup, s);
    OpeningEnds(setup, k);
    CreditStalled(setup, s, rs, sent, k, success);
    StalledIs(setup, Step(setup, s, Reply(success)), k + 1);
  }

  lemma StalledIs(setup: Setup, s: State, k: nat)
    requires s.isOpen && StalledAt(s, OpeningRequests(setup), Sendable(setup, OpeningRequests(setup)), k)
    ensures Stalled(setup, s)
  {
    hide OpeningRequests, Sendable;
  }

  lemma CreditStalled(setup: Setup, s: State, rs: seq<Request>, sent: seq<Request>, k: nat, success: bool)
    requires k < |sent| && k < |rs| && !IsCommand(rs[k]) && StalledAt(s, rs, sent, k)
    ensures var t := Step(setup, s, Reply(success));
      t.isOpen == s.isOpen && StalledAt(t, rs, sent, k + 1)
  {
    hide Reads, Answered;
    ReadsAppend(s.log, rs, sent, rs[..k], false, Credit(rs[k], success));
    assert rs[k..][0] == rs[k] && rs[k..][1..] == rs[k + 1..];
    assert rs[..k] + [rs[k]] == rs[..k + 1];
    OtherAnswered(setup, s, success, rs, sent, rs[..k + 1]);
  }

  lemma WaitingMeans(setup: Setup, s: State)
    requires Stalled(setup, s) && Waiting(s.log) != []
    ensures var rs, k := OpeningRequests(setup), |Credited(s.log)|;
      s.isOpen && k < |Sendable(setup, rs)| && StalledAt(s, rs, Sendable(setup, rs), k)
  {
    hide OpeningRequests, Sendable;
  }

  /** A session that counts an opening request which does not go out never becomes
      ready: its command's reply, if one is sent, is credited to an earlier
      request.  It is never aborted and a user's EOF is never passed on. */
  lemma {:induction false} NeverReady(setup: Setup, events: seq<Event>)
    requires setup.session && !OpeningGoesOut(setup) && Legal(setup, events)
    ensures var s := Run(setup, events);
      && Ready !in s.log && Abort !in s.log && WriteEof(true) !in s.log
      && Credited(s.log) < OpeningRequests(setup)
  {
    hide Legal, Run, OpeningGoesOut, OpeningRequests;
    StalledRun(setup, events);
    RunsInWords(setup, events);
    StalledMeans(setup, Run(setup, events));
  }

  lemma StalledMeans(setup: Setup, s: State)
    requires !OpeningGoesOut(setup) && Stalled(setup, s)
    ensures Ready !in s.log && Abort !in s.log && Credited(s.log) < OpeningRequests(setup)
  {
    OpeningSendable(setup);
    SendableIsAll(setup, OpeningRequests(setup));
    OpeningEnds(setup, 0);
    hide OpeningRequests, OpeningGoesOut;
  }

  lemma {:induction false} StalledRun(setup: Setup, events: seq<Event>)
    requires setup.session && !OpeningGoesOut(setup) && Legal(setup, events)
    ensures Stalled(setup, Run(setup, events))
  {
    if events == [] {
      StartReads();
    } else {
      hide Stalled, OpeningGoesOut, Step, Waiting;
      var n := |events| - 1;
      StalledRun(setup, events[..n]);
      StalledStep(setup, Run(setup, events[..n]), events[n]);
    }
  }

  predicate BecomesReadyIn(setup: Setup, events: seq<Event>) {
    Legal(setup, events) && Ready in Run(setup, events).log
  }

  /** Some legal run becomes ready if and only if every opening request goes out
      (a channel that is not a session is ready as soon as it opens). */
  lemma ReadyIsPossible(setup: Setup)
    ensures (exists events :: BecomesReadyIn(setup, events)) <==> (setup.session ==> OpeningGoesOut(setup))
  {
    hide OpeningGoesOut, BecomesReadyIn;
    if setup.session && !OpeningGoesOut(setup) {
      forall events ensures !BecomesReadyIn(setup, events) {
        NotReadyIn(setup, events);
      }
    } else {
      var events := SomeReadyRun(setup);
    }
  }

  lemma NotReadyIn(setup: Setup, events: seq<Event>)
    requires setup.session && !OpeningGoesOut(setup)
    ensures !BecomesReadyIn(setup, events)
  {
    hide OpeningGoesOut;
    if Legal(setup, events) {
      NeverReady(setup, events);
    }
  }

  lemma SomeReadyRun(setup: Setup) returns (events: seq<Event>)
    requires setup.session ==> OpeningGoesOut(setup)
    ensures BecomesReadyIn(setup, events)
  {
    if setup.session {
      hide OpeningGoesOut, OpeningRequests, Reads;
      var n := |OpeningRequests(setup)|;
      AllSucceed(setup, n);
      events := [Opened] + Successes(n);
    } else {
      hide EofIn;
      RunAppend(setup, [], Opened);
      events := [] + [Opened];
    }
  }

  /** An SSH-1 session with one environment variable and a shell. */
  const SSH1_WITH_VARIABLE := Setup(true, false, false, false, [[65]], false, false, false, false, false)

  /** events is a legal run that ends in s. */
  predicate Leads(setup: Setup, events: seq<Event>, s: State) {
    Legal(setup, events) && Run(setup, events) == s
  }

  lemma LeadsOn(setup: Setup, events: seq<Event>, s: State, e: Event)
    requires Leads(setup, events, s) && (e.Reply? ==> Waiting(s.log) != [])
    ensures Leads(setup, events + [e], Step(setup, s, e))
  {
    hide Step, Waiting;
    RunAppend(setup, events, e);
  }

  /** The session has opened, and then a user has asked for EOF. */
  lemma VariableAsked() returns (s: State)
    ensures Leads(SSH1_WITH_VARIABLE, [] + [Opened] + [UserEof], s)
    ensures s.queue == [Env(0), Primary] && Reads(s.log, [Env(0), Primary], [Primary], [], false)
  {
    var setup := SSH1_WITH_VARIABLE;
    assert setup.session;
    OpenedOnly(setup);
    NothingLeads(setup);
    hide *;
    VariableOpening();
    var s1 := Step(setup, START, Opened);
    LeadsOn(setup, [], START, Opened);
    AskedEarly(setup, s1);
    LeadsOn(setup, [] + [Opened], s1, UserEof);
    s := s1.(asked := true);
  }

  /** There the reply to the command is credited to the variable, although only
      the command was sent, while the queue still holds the command. */
  lemma VariableTakesReply() returns (s: State)
    ensures Leads(SSH1_WITH_VARIABLE, [Opened, UserEof, Reply(true)], s)
    ensures Sent(s.log) == [Primary] && Credited(s.log) == [Env(0)] && s.queue == [Primary]
  {
    hide *;
    var s2 := VariableAsked();
    VariableReply(s2);
    LeadsOn(SSH1_WITH_VARIABLE, [] + [Opened] + [UserEof], s2, Reply(true));
    s := Step(SSH1_WITH_VARIABLE, s2, Reply(true));
    assert [] + [Opened] + [UserEof] + [Reply(true)] == [Opened, UserEof, Reply(true)];
  }

  /** And no legal run of that session is ready or passes a user's EOF on. */
  lemma VariableNeverReady(events: seq<Event>)
    requires Legal(SSH1_WITH_VARIABLE, events)
    ensures var log := Run(SSH1_WITH_VARIABLE, events).log; Ready !in log && WriteEof(true) !in log
  {
    NeverReady(SSH1_WITH_VARIABLE, events);
  }

  lemma NothingLeads(setup: Setup)
    ensures Leads(setup, [], START)
  {
  }

  lemma AskedEarly(setup: Setup, s: State)
    requires Ready !in s.log
    ensures Step(setup, s, UserEof) == s.(asked := true)
  {
  }

  lemma VariableOpening()
    ensures OpeningRequests(SSH1_WITH_VARIABLE) == [Env(0), Primary]
    ensures Sendable(SSH1_WITH_VARIABLE, [Env(0), Primary]) == [Primary]
  {
    var setup := SSH1_WITH_VARIABLE;
    assert Envs(0, 1) == [Env(0)];
    var rs := [Env(0), Primary];
    assert rs[..1] == [Env(0)] && rs[..1][..0] == [];
    assert Sendable(setup, rs[..1]) == [];
  }

  lemma VariableReply(s: State)
    requires s.queue == [Env(0), Primary] && Reads(s.log, [Env(0), Primary], [Primary], [], false)
    ensures Waiting(s.log) == [Primary]
    ensures var t := Step(SSH1_WITH_VARIABLE, s, Reply(true));
      t.queue == [Primary] && Sent(t.log) == [Primary] && Credited(t.log) == [Env(0)]
  {
    hide Reads, Answered;
    var rs, sent := [Env(0), Primary], [Primary];
    ReadsIs(s.log, rs, sent, []);
    assert [] + [Env(0)] == [Env(0)];
    ReadsAppend(s.log, rs, sent, [], false, Credit(Env(0), true));
    OtherAnswered(SSH1_WITH_VARIABLE, s, true, rs, sent, [Env(0)]);
    ReadsIs(Answered(SSH1_WITH_VARIABLE, s, true).log, rs, sent, [Env(0)]);
  }

  lemma ReadsIs(log: seq<Action>, c: seq<Request>, s: seq<Request>, k: seq<Request>)
    requires Reads(log, c, s, k, false)
    ensures Sent(log) == s && Credited(log) == k && (k == [] ==> Waiting(log) == s)
  {
  }
}
