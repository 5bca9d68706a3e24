/**
 The main session channel (mainchan.c): flags and counters updated by each
 handler, proved to follow the reference machine of MainChannelSpec.

 `log` collects the calls made on the connection, with what they return, and on
 the front end and the event log.  A `Credit` entry marks the branch of the reply handler that was taken.
 */
module MainChannel {
  import opened Marshal
  import opened ConfKeys
  import opened Configuration
  import opened MainChannelSpec

  /** The queue that the request flags stand for. */
  function Encoded(x11: bool, agent: bool, pty: bool, replies: nat, envs: nat, primary: bool, fallback: bool): seq<Request>
    requires replies <= envs
  {
    If(x11, X11) + If(agent, Agent) + If(pty, Pty) + Envs(replies, envs) + If(primary, Primary) + If(fallback, Fallback)
  }

  /** What the counter of refusals and three of the flags say about the log. */
  predicate Tracks(log: seq<Action>, fails: nat, eofSent: bool, gotPty: bool, ready: bool) {
    && fails == Refusals(log)
    && eofSent == EofIn(log)
    && gotPty == (Credit(Pty, true) in log)
    && ready == (Ready in log)
  }

  class MainChan {
    const setup: Setup
    const conf: Conf
    const environmt: nat
    var reqX11: bool
    var reqAgent: bool
    var reqPty: bool
    var reqCmdPrimary: bool
    var reqCmdFallback: bool
    var nReqEnv: nat
    var nEnvReplies: nat
    var nEnvFails: nat
    var eofPending: bool
    var eofSent: bool
    var gotPty: bool
    var ready: bool
    var log: seq<Action>
    ghost var isOpen: bool
    ghost var asked: bool

    /** The environment variables of the setup are those the configuration lists. */
    ghost predicate Configured()
      reads conf
    {
      conf.Valid() && HasNames(conf.schema, environmt) && setup.env == Subkeys(conf.entries, environmt)
    }

    ghost predicate Valid()
      reads this, conf
    {
      && Configured()
      && nEnvReplies <= nReqEnv == (if isOpen && setup.session then |setup.env| else 0)
      && (!isOpen ==> !reqX11 && !reqAgent && !reqPty && !reqCmdPrimary && !reqCmdFallback && !ready)
      && !(reqCmdPrimary && reqCmdFallback)
      && (ready ==> NothingAsked())
      && eofPending == (asked && !ready)
      && Tracks(log, nEnvFails, eofSent, gotPty, ready)
    }

    predicate NothingAsked()
      reads this
    {
      !reqX11 && !reqAgent && !reqPty && nEnvReplies == nReqEnv && !reqCmdPrimary && !reqCmdFallback
    }

    /** The requests counted as unanswered, as the flags and counters encode them. */
    ghost function Outstanding(): seq<Request>
      requires nEnvReplies <= nReqEnv
      reads this
    {
      Encoded(reqX11, reqAgent, reqPty, nEnvReplies, nReqEnv, reqCmdPrimary, reqCmdFallback)
    }

    ghost function Value(): State
      requires nEnvReplies <= nReqEnv
      reads this
    {
      State(isOpen, Outstanding(), asked, log)
    }

    constructor (setup: Setup, conf: Conf, environmt: nat)
      requires conf.Valid() && HasNames(conf.schema, environmt) && setup.env == Subkeys(conf.entries, environmt)
      ensures Valid() && Value() == START && this.setup == setup && this.conf == conf
    {
      this.setup, this.conf, this.environmt := setup, conf, environmt;
      reqX11, reqAgent, reqPty, reqCmdPrimary, reqCmdFallback := false, false, false, false, false;
      nReqEnv, nEnvReplies, nEnvFails := 0, 0, 0;
      eofPending, eofSent, gotPty, ready := false, false, false, false;
      log := [];
      isOpen, asked := false, false;
    }

    /** mainchan_open_confirmation. */
    method OpenConfirmation()
      requires Valid() && !isOpen
      modifies this
      ensures Valid() && Value() == Step(setup, old(Value()), Opened)
    {
      hide Configured, Refusals, Sends, EofIn, OpeningRequests, Answered, Encoded;
      isOpen := true;
      if setup.session {
        ghost var start := log;
        SendRequests();
        SendsNeutral(setup, start, OpeningRequests(setup), nEnvFails, eofSent, gotPty, ready);
        assert Outstanding() == OpeningRequests(setup) by { OpeningEncoded(setup); }
        assert old(Outstanding()) == [] by { NothingEncoded(); }
      } else {
        BecomesReady();
      }
    }

    method SendRequests()
      requires Configured() && nReqEnv == 0 && !reqX11 && !reqAgent && !reqPty
      modifies this`log, this`reqX11, this`reqAgent, this`reqPty, this`nReqEnv, this`reqCmdPrimary, this`reqCmdFallback
      ensures log == old(log) + Sends(setup, OpeningRequests(setup))
      ensures reqX11 == setup.x11 && reqAgent == setup.agent && reqPty == setup.pty && nReqEnv == |setup.env|
      ensures reqCmdPrimary == (old(reqCmdPrimary) || !Retries(setup))
      ensures reqCmdFallback == (old(reqCmdFallback) || Retries(setup))
    {
      hide *;
      ghost var start := log;
      ghost var head := SendForwarding();
      SendEnvironment();
      SendsAppend(setup, start, head, Envs(0, |setup.env|));
      StartCommand();
      SendsAppend(setup, start, head + Envs(0, |setup.env|), [FinalRequest(setup)]);
      OpeningParts(setup, head);
    }

    /** The three requests that are made only if they are wanted. */
    method SendForwarding() returns (ghost head: seq<Request>)
      requires !reqX11 && !reqAgent && !reqPty
      modifies this`log, this`reqX11, this`reqAgent, this`reqPty
      ensures head == If(setup.x11, X11) + If(setup.agent, Agent) + If(setup.pty, Pty)
      ensures log == old(log) + Sends(setup, head)
      ensures reqX11 == setup.x11 && reqAgent == setup.agent && reqPty == setup.pty
    {
      assert CanSend(setup, X11) && CanSend(setup, Agent) && CanSend(setup, Pty);
      hide *;
      head := If(setup.x11, X11);
      ghost var start := log;
      FirstSend(setup, start, setup.x11, X11);
      if setup.x11 {
        log := log + [Send(X11, true)];
        reqX11 := true;
      }
      head := SendIf(setup, start, head, setup.agent, Agent);
      if setup.agent {
        log := log + [Send(Agent, true)];
        reqAgent := true;
      }
      head := SendIf(setup, start, head, setup.pty, Pty);
      if setup.pty {
        log := log + [Send(Pty, true)];
        reqPty := true;
      }
    }

    method StartCommand()
      modifies this`log, this`reqCmdPrimary, this`reqCmdFallback
      ensures log == old(log) + Sends(setup, [FinalRequest(setup)])
      ensures reqCmdPrimary == (old(reqCmdPrimary) || !Retries(setup))
      ensures reqCmdFallback == (old(reqCmdFallback) || Retries(setup))
    {
      hide Sends;
      SendsOne(setup, Primary);
      var retryNow := false;
      if setup.subsystem {
        retryNow := !setup.canSubsystem;
      }
      assert retryNow == Retries(setup);
      if !retryNow {
        log := log + [Send(Primary, true)];
      }
      if retryNow {
        TryFallbackCommand();
      } else {
        reqCmdPrimary := true;
      }
    }

    /** The loop over the environment variables. */
    method SendEnvironment()
      requires Configured() && nReqEnv == 0
      modifies this`log, this`nReqEnv
      ensures log == old(log) + Sends(setup, Envs(0, |setup.env|))
      ensures nReqEnv == |setup.env|
    {
      hide Subkeys, WellFormed, HasNames;
      var names := conf.Names(environmt);
      for i := 0 to |names|
        invariant nReqEnv == i
        invariant log == old(log) + Sends(setup, Envs(0, i))
      {
        EnvsGrow(setup, 0, i);
        log := log + [Send(Env(i), setup.canEnv)];
        nReqEnv := nReqEnv + 1;
      }
    }

    /** mainchan_try_fallback_command: whether the subsystem request could be
        sent is not looked at. */
    method TryFallbackCommand()
      modifies this`log, this`reqCmdFallback
      ensures log == old(log) + Sends(setup, [Fallback]) && reqCmdFallback
    {
      SendsOne(setup, Fallback);
      var sent := true;
      if setup.fallbackSubsystem {
        sent := setup.canSubsystem;
      }
      log := log + [Send(Fallback, sent)];
      reqCmdFallback := true;
    }

    /** mainchan_ready. */
    method BecomesReady()
      requires Tracks(log, nEnvFails, eofSent, gotPty, ready) && (eofPending ==> asked)
      modifies this`log, this`ready, this`eofPending, this`eofSent, this`asked
      ensures log == ReadyLog(old(log), old(eofPending && !eofSent))
      ensures ready && !eofPending && asked == old(asked)
      ensures Tracks(log, nEnvFails, eofSent, gotPty, ready)
    {
      hide Tracks;
      Logged(log, nEnvFails, eofSent, gotPty, ready, Ready);
      ready := true;
      log := log + [Ready];
      if eofPending {
        eofPending := false;
        SpecialEof();
      }
    }

    /** mainchan_special_cmd(SS_EOF). */
    method SpecialEof()
      requires Tracks(log, nEnvFails, eofSent, gotPty, ready)
      modifies this`log, this`eofPending, this`eofSent, this`asked
      ensures asked && Tracks(log, nEnvFails, eofSent, gotPty, ready)
      ensures eofPending == (old(eofPending) || !ready)
      ensures log == if ready && !old(eofSent) then old(log) + [WriteEof(true)] else old(log)
    {
      hide Tracks;
      asked := true;
      if !ready {
        eofPending := true;
      } else if !eofSent {
        Logged(log, nEnvFails, eofSent, gotPty, ready, WriteEof(true));
        log := log + [WriteEof(true)];
        eofSent := true;
      }
    }

    /** mainchan_request_response: the first flag that is set takes the reply.
        It is the oldest request counted as unanswered. */
    method RequestResponse(success: bool)
      requires Valid()
      modifies this
      ensures Valid() && Value() == Step(setup, old(Value()), Reply(success))
    {
      hide Configured, Encoded, Step, Envs, Tracks;
      if reqX11 {
        X11Response(success);
        return;
      }
      if reqAgent {
        AgentResponse(success);
        return;
      }
      if reqPty {
        PtyResponse(success);
        return;
      }
      if nEnvReplies < nReqEnv {
        EnvResponse(success);
        return;
      }
      OldestCommand(nReqEnv, reqCmdPrimary, reqCmdFallback);
      if reqCmdPrimary {
        PrimaryResponse(success);
        return;
      }
      if reqCmdFallback {
        FallbackResponse(success);
        return;
      }
      ReplyToNothing(setup, Value(), success);
    }

    method X11Response(success: bool)
      requires Valid() && reqX11
      modifies this
      ensures Valid() && Value() == Step(setup, old(Value()), Reply(success))
    {
      hide Configured, Encoded, Step, Envs, Sends, Tracks, ReadyLog;
      ghost var fallback := reqCmdFallback;
      ghost var rest := Encoded(false, reqAgent, reqPty, nEnvReplies, nReqEnv, reqCmdPrimary, fallback);
      OldestX11(reqAgent, reqPty, nEnvReplies, nReqEnv, reqCmdPrimary, fallback);
      ReplySimple(setup, Value(), X11, rest, success);
      reqX11 := false;
      Emit(Credit(X11, success));
    }

    method AgentResponse(success: bool)
      requires Valid() && !reqX11 && reqAgent
      modifies this
      ensures Valid() && Value() == Step(setup, old(Value()), Reply(success))
    {
      hide Configured, Encoded, Step, Envs, Sends, Tracks, ReadyLog;
      ghost var fallback := reqCmdFallback;
      ghost var rest := Encoded(false, false, reqPty, nEnvReplies, nReqEnv, reqCmdPrimary, fallback);
      OldestAgent(reqPty, nEnvReplies, nReqEnv, reqCmdPrimary, fallback);
      ReplySimple(setup, Value(), Agent, rest, success);
      reqAgent := false;
      Emit(Credit(Agent, success));
    }

    method PtyResponse(success: bool)
      requires Valid() && !reqX11 && !reqAgent && reqPty
      modifies this
      ensures Valid() && Value() == Step(setup, old(Value()), Reply(success))
    {
      hide Configured, Encoded, Step, Envs, Sends, Tracks, ReadyLog;
      ghost var fallback := reqCmdFallback;
      ghost var rest := Encoded(false, false, false, nEnvReplies, nReqEnv, reqCmdPrimary, fallback);
      OldestPty(nEnvReplies, nReqEnv, reqCmdPrimary, fallback);
      ReplySimple(setup, Value(), Pty, rest, success);
      reqPty := false;
      Logged(log, nEnvFails, eofSent, gotPty, ready, Credit(Pty, success));
      log := log + [Credit(Pty, success)];
      if success {
        gotPty := true;
      }
    }

    method EnvResponse(success: bool)
      requires Valid() && !reqX11 && !reqAgent && !reqPty && nEnvReplies < nReqEnv
      modifies this
      ensures Valid() && Value() == Step(setup, old(Value()), Reply(success))
    {
      hide Configured, Encoded, Step, Envs, Sends, Tracks, ReadyLog;
      OldestEnv(nEnvReplies, nReqEnv, reqCmdPrimary, reqCmdFallback);
      var j := nEnvReplies;
      ReplyEnv(setup, Value(), j,
        Encoded(false, false, false, j + 1, nReqEnv, reqCmdPrimary, reqCmdFallback), success,
        nEnvFails, eofSent, gotPty, ready);
      nEnvReplies := nEnvReplies + 1;
      Emit(Credit(Env(j), success));
      if !success {
        RefuseVariable(j);
      }
      if nEnvReplies == nReqEnv {
        Emit(EnvDone(if nEnvFails == 0 then AllSet else if nEnvFails == nReqEnv then AllRefused else SomeRefused));
      }
    }

    method Emit(a: Action)
      requires Tracks(log, nEnvFails, eofSent, gotPty, ready)
      requires !a.EnvRefused? && !a.WriteEof? && a != Ready && a != Credit(Pty, true)
      modifies this`log
      ensures log == old(log) + [a] && Tracks(log, nEnvFails, eofSent, gotPty, ready)
    {
      hide Tracks;
      Logged(log, nEnvFails, eofSent, gotPty, ready, a);
      log := log + [a];
    }

    /** Reply j refuses a variable; its name is looked up as the j-th. */
    method RefuseVariable(j: nat)
      requires Configured() && j < |setup.env| && Tracks(log, nEnvFails, eofSent, gotPty, ready)
      modifies this`log, this`nEnvFails
      ensures log == old(log) + [EnvRefused(setup.env[j])] && nEnvFails == old(nEnvFails) + 1
      ensures Tracks(log, nEnvFails, eofSent, gotPty, ready)
    {
      hide Tracks;
      Logged(log, nEnvFails, eofSent, gotPty, ready, EnvRefused(setup.env[j]));
      var found := conf.GetStrNthStrKey(environmt, j);
      log := log + [EnvRefused(found.value)];
      nEnvFails := nEnvFails + 1;
    }

    method PrimaryResponse(success: bool)
      requires Valid() && !reqX11 && !reqAgent && !reqPty && nEnvReplies == nReqEnv && reqCmdPrimary
      modifies this
      ensures Valid() && Value() == Step(setup, old(Value()), Reply(success))
    {
      hide Configured, Encoded, Step, Envs, Sends, Tracks, ReadyLog;
      OldestCommand(nReqEnv, true, false);
      OldestCommand(nReqEnv, false, true);
      OldestCommand(nReqEnv, false, false);
      ReplyPrimary(setup, Value(), success, nEnvFails, eofSent, gotPty, ready);
      reqCmdPrimary := false;
      Emit(Credit(Primary, success));
      if success {
        BecomesReady();
      } else if setup.hasFallback {
        SendsNeutral(setup, log, [Fallback], nEnvFails, eofSent, gotPty, ready);
        TryFallbackCommand();
      } else {
        Emit(Abort);
      }
    }

    method FallbackResponse(success: bool)
      requires Valid() && !reqX11 && !reqAgent && !reqPty && nEnvReplies == nReqEnv && reqCmdFallback
      modifies this
      ensures Valid() && Value() == Step(setup, old(Value()), Reply(success))
    {
      hide Configured, Encoded, Step, Envs, Sends, Tracks, ReadyLog;
      OldestCommand(nReqEnv, false, true);
      OldestCommand(nReqEnv, false, false);
      ReplyFallback(setup, Value(), success, nEnvFails, eofSent, gotPty, ready);
      reqCmdFallback := false;
      Emit(Credit(Fallback, success));
      if success {
        Emit(GotFallback);
        BecomesReady();
      } else {
        Emit(Abort);
      }
    }

    method UserAsksEof()
      requires Valid()
      modifies this
      ensures Valid() && Value() == Step(setup, old(Value()), UserEof)
    {
      hide Configured, Encoded, EofIn, Refusals, Answered, BecomeReady, SendAll, OpeningRequests;
      SpecialEof();
    }

    /** mainchan_send_eof: the far end has sent EOF. */
    method SendEof(seatWantsEof: bool)
      requires Valid()
      modifies this
      ensures Valid() && Value() == Step(setup, old(Value()), RemoteEof(seatWantsEof))
    {
      hide Configured, Encoded, EofIn, Refusals, Answered, BecomeReady, SendAll, OpeningRequests;
      if !eofSent && (seatWantsEof || gotPty) {
        Logged(log, nEnvFails, eofSent, gotPty, ready, WriteEof(false));
        log := log + [WriteEof(false)];
        eofSent := true;
      }
    }
  }

  /** A channel that has been through any sequence of events is where the
      reference machine is, so what holds of runs holds of it. */
  method Drive(setup: Setup, conf: Conf, environmt: nat, events: seq<Event>) returns (mc: MainChan)
    requires conf.Valid() && HasNames(conf.schema, environmt) && setup.env == Subkeys(conf.entries, environmt)
    ensures fresh(mc) && mc.Valid() && mc.setup == setup && mc.Value() == Run(setup, events)
  {
    hide Subkeys, WellFormed, HasNames, Step, Encoded, Tracks;
    mc := new MainChan(setup, conf, environmt);
    var wasOpened := false;
    RunStarts(setup, events);
    for i := 0 to |events|
      invariant fresh(mc) && mc.Valid() && mc.setup == setup
      invariant wasOpened == mc.isOpen && mc.Value() == Run(setup, events[..i])
    {
      RunGoesOn(setup, events, i);
      match events[i]
      case Opened =>
        if !wasOpened {
          mc.OpenConfirmation();
          wasOpened := true;
        }
      case Reply(success) => mc.RequestResponse(success);
      case RemoteEof(wanted) => mc.SendEof(wanted);
      case UserEof => mc.UserAsksEof();
    }
    assert events[..|events|] == events;
  }

  lemma RunStarts(setup: Setup, events: seq<Event>)
    ensures Run(setup, events[..0]) == START
  {
  }

  lemma RunGoesOn(setup: Setup, events: seq<Event>, i: nat)
    requires i < |events|
    ensures var s := Run(setup, events[..i]);
      && Run(setup, events[..i + 1]) == Step(setup, s, events[i])
      && Step(setup, s, events[i]).isOpen == (s.isOpen || events[i] == Opened)
      && (events[i] == Opened && s.isOpen ==> Step(setup, s, Opened) == s)
  {
    hide OpeningRequests, EofIn, Refusals;
    assert events[..i + 1][..i] == events[..i];
    StepRemembers(setup, Run(setup, events[..i]), events[i]);
  }

  // ----- the oldest request, and the flags once it is answered

  lemma OldestX11(agent: bool, pty: bool, replies: nat, envs: nat, primary: bool, fallback: bool)
    requires replies <= envs
    ensures Encoded(true, agent, pty, replies, envs, primary, fallback)
         == [X11] + Encoded(false, agent, pty, replies, envs, primary, fallback)
  {
  }

  lemma OldestAgent(pty: bool, replies: nat, envs: nat, primary: bool, fallback: bool)
    requires replies <= envs
    ensures Encoded(false, true, pty, replies, envs, primary, fallback)
         == [Agent] + Encoded(false, false, pty, replies, envs, primary, fallback)
  {
  }

  lemma OldestPty(replies: nat, envs: nat, primary: bool, fallback: bool)
    requires replies <= envs
    ensures Encoded(false, false, true, replies, envs, primary, fallback)
         == [Pty] + Encoded(false, false, false, replies, envs, primary, fallback)
  {
  }

  lemma OldestEnv(replies: nat, envs: nat, primary: bool, fallback: bool)
    requires replies < envs
    ensures var q := Encoded(false, false, false, replies + 1, envs, primary, fallback);
      Encoded(false, false, false, replies, envs, primary, fallback) == [Env(replies)] + q
      && (q != [] && q[0].Env? <==> replies + 1 < envs)
  {
  }

  lemma OldestCommand(envs: nat, primary: bool, fallback: bool)
    ensures Encoded(false, false, false, envs, envs, primary, fallback) == If(primary, Primary) + If(fallback, Fallback)
  {
  }

  // ----- what the reference machine does with each reply

  lemma ReplyToNothing(setup: Setup, s: State, ok: bool)
    requires s.queue == []
    ensures Step(setup, s, Reply(ok)) == s
  {
  }

  lemma ReplySimple(setup: Setup, s: State, r: Request, q: seq<Request>, ok: bool)
    requires s.queue == [r] + q && (r.X11? || r.Agent? || r.Pty?)
    ensures Step(setup, s, Reply(ok)) == s.(queue := q, log := s.log + [Credit(r, ok)])
  {
    assert s.queue[1..] == q;
  }

  lemma ReplyEnv(setup: Setup, s: State, j: nat, q: seq<Request>, ok: bool,
      fails: nat, eofSent: bool, gotPty: bool, ready: bool)
    requires s.queue == [Env(j)] + q && j < |setup.env| && Tracks(s.log, fails, eofSent, gotPty, ready)
    ensures var l1 := s.log + [Credit(Env(j), ok)];
      var l2 := if ok then l1 else l1 + [EnvRefused(setup.env[j])];
      var total := if ok then fails else fails + 1;
      var l3 := if q != [] && q[0].Env? then l2 else l2 + [EnvDone(Summary(total, |setup.env|))];
      Step(setup, s, Reply(ok)) == s.(queue := q, log := l3)
  {
    hide Summary;
    var l1 := s.log + [Credit(Env(j), ok)];
    assert s.queue[1..] == q;
    Appended(s.log, Credit(Env(j), ok));
    Appended(l1, EnvRefused(setup.env[j]));
  }

  lemma ReplyPrimary(setup: Setup, s: State, ok: bool, fails: nat, eofSent: bool, gotPty: bool, ready: bool)
    requires s.queue == [Primary] && Tracks(s.log, fails, eofSent, gotPty, ready)
    ensures var l1 := s.log + [Credit(Primary, ok)];
      Step(setup, s, Reply(ok)) ==
      if ok then s.(queue := [], log := ReadyLog(l1, s.asked && !eofSent))
      else if setup.hasFallback then s.(queue := [Fallback], log := l1 + Sends(setup, [Fallback]))
      else s.(queue := [], log := l1 + [Abort])
  {
    hide Sends;
    assert s.queue[1..] == [];
  }

  lemma ReplyFallback(setup: Setup, s: State, ok: bool, fails: nat, eofSent: bool, gotPty: bool, ready: bool)
    requires s.queue == [Fallback] && Tracks(s.log, fails, eofSent, gotPty, ready)
    ensures var l1 := s.log + [Credit(Fallback, ok)];
      Step(setup, s, Reply(ok)) ==
      s.(queue := [], log := if ok then ReadyLog(l1 + [GotFallback], s.asked && !eofSent) else l1 + [Abort])
  {
    assert s.queue[1..] == [];
  }

  function ReadyLog(log: seq<Action>, pending: bool): seq<Action> {
    if pending then log + [Ready] + [WriteEof(true)] else log + [Ready]
  }

  // ----- logs of requests

  lemma Logged(log: seq<Action>, fails: nat, eofSent: bool, gotPty: bool, ready: bool, a: Action)
    requires Tracks(log, fails, eofSent, gotPty, ready)
    ensures Tracks(log + [a], fails + if a.EnvRefused? then 1 else 0,
      eofSent || a.WriteEof?, gotPty || a == Credit(Pty, true), ready || a == Ready)
  {
    Appended(log, a);
  }

  lemma FirstSend(setup: Setup, start: seq<Action>, c: bool, r: Request)
    requires CanSend(setup, r)
    ensures start + Sends(setup, If(c, r)) == if c then start + [Send(r, true)] else start
  {
    SendsOne(setup, r);
  }

  lemma SendsAppend(setup: Setup, start: seq<Action>, rs: seq<Request>, more: seq<Request>)
    ensures start + Sends(setup, rs) + Sends(setup, more) == start + Sends(setup, rs + more)
  {
    SendsConcat(setup, rs, more);
    Assoc(start, Sends(setup, rs), Sends(setup, more));
  }

  lemma {:induction false} SendsConcat(setup: Setup, rs: seq<Request>, more: seq<Request>)
    ensures Sends(setup, rs) + Sends(setup, more) == Sends(setup, rs + more)
  {
    if more == [] {
      assert rs + more == rs && Sends(setup, rs) + [] == Sends(setup, rs);
    } else {
      var n := |more| - 1;
      SendsConcat(setup, rs, more[..n]);
      assert more == more[..n] + [more[n]];
      ConcatOne(setup, rs, more[..n], more[n]);
    }
  }

  lemma ConcatOne(setup: Setup, rs: seq<Request>, init: seq<Request>, r: Request)
    requires Sends(setup, rs) + Sends(setup, init) == Sends(setup, rs + init)
    ensures Sends(setup, rs) + Sends(setup, init + [r]) == Sends(setup, rs + (init + [r]))
  {
    var a := [Send(r, CanSend(setup, r))];
    Assoc(rs, init, [r]);
    Assoc(Sends(setup, rs), Sends(setup, init), a);
    SendsLast(setup, init, r);
    SendsLast(setup, rs + init, r);
    hide *;
  }

  lemma SendsLast(setup: Setup, rs: seq<Request>, r: Request)
    ensures Sends(setup, rs + [r]) == Sends(setup, rs) + [Send(r, CanSend(setup, r))]
  {
    assert (rs + [r])[..|rs|] == rs;
  }

  lemma SendIf(setup: Setup, start: seq<Action>, rs: seq<Request>, c: bool, r: Request) returns (more: seq<Request>)
    requires CanSend(setup, r)
    ensures more == rs + If(c, r)
    ensures start + Sends(setup, more) == if c then start + Sends(setup, rs) + [Send(r, true)] else start + Sends(setup, rs)
  {
    more := rs + If(c, r);
    SendsAppend(setup, start, rs, If(c, r));
    SendsOne(setup, r);
  }

  lemma OpeningParts(setup: Setup, head: seq<Request>)
    requires head == If(setup.x11, X11) + If(setup.agent, Agent) + If(setup.pty, Pty)
    ensures head + Envs(0, |setup.env|) + [FinalRequest(setup)] == OpeningRequests(setup)
  {
  }

  lemma NothingEncoded()
    ensures Encoded(false, false, false, 0, 0, false, false) == []
  {
  }

  lemma OpeningEncoded(setup: Setup)
    ensures Encoded(setup.x11, setup.agent, setup.pty, 0, |setup.env|, !Retries(setup), Retries(setup)) == OpeningRequests(setup)
  {
  }

  lemma EnvsGrow(setup: Setup, lo: nat, hi: nat)
    requires lo <= hi
    ensures Envs(lo, hi + 1) == Envs(lo, hi) + [Env(hi)]
    ensures Sends(setup, Envs(lo, hi + 1)) == Sends(setup, Envs(lo, hi)) + [Send(Env(hi), setup.canEnv)]
  {
    assert Envs(lo, hi + 1) == Envs(lo, hi) + [Env(hi)];
    SendsLast(setup, Envs(lo, hi), Env(hi));
  }

  /** Making requests changes nothing the flags stand for. */
  lemma {:induction false} SendsNeutral(
      setup: Setup, log: seq<Action>, rs: seq<Request>, fails: nat, eofSent: bool, gotPty: bool, ready: bool)
    requires Tracks(log, fails, eofSent, gotPty, ready)
    ensures Tracks(log + Sends(setup, rs), fails, eofSent, gotPty, ready)
  {
    hide Tracks, CanSend;
    if rs == [] {
      assert log + Sends(setup, rs) == log;
    } else {
      var n := |rs| - 1;
      var a := Send(rs[n], CanSend(setup, rs[n]));
      SendsNeutral(setup, log, rs[..n], fails, eofSent, gotPty, ready);
      Assoc(log, Sends(setup, rs[..n]), [a]);
      Logged(log + Sends(setup, rs[..n]), fails, eofSent, gotPty, ready, a);
    }
  }
}
