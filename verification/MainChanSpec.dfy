/**
 The main session channel of an SSH client, as a machine with an explicit queue.

 The machine remembers only what is observable: the requests it counts as
 unanswered, oldest first (replies on a channel come in the order of the
 requests, section 4 of RFC 4254), whether the user has asked for an EOF, and
 everything done so far.  It has no flags and no counters.

 A request can be counted without anything going out: an SSH-1 connection has no
 request for an environment variable or a subsystem, and the channel does not
 always look at the result.  The log says of each request whether it was sent.
 */
module MainChannelSpec {
  import opened Marshal

  datatype Request = X11 | Agent | Pty | Env(j: nat) | Primary | Fallback

  datatype EnvSummary = AllSet | AllRefused | SomeRefused

  datatype Action =
    | Send(request: Request, sent: bool)
    | Credit(request: Request, success: bool)
    | EnvRefused(name: seq<byte>)
    | EnvDone(summary: EnvSummary)
    | GotFallback
    | Ready
    | WriteEof(byUser: bool)
    | Abort

  datatype Event =
    | Opened
    | Reply(success: bool)
    | RemoteEof(seatWantsEof: bool)
    | UserEof

  /** What the configuration and the connection decide; the last two are false on
      an SSH-1 connection and true on an SSH-2 one. */
  datatype Setup = Setup(
    session: bool, x11: bool, agent: bool, pty: bool, env: seq<seq<byte>>,
    subsystem: bool, hasFallback: bool, fallbackSubsystem: bool, canEnv: bool, canSubsystem: bool)

  datatype State = State(isOpen: bool, queue: seq<Request>, asked: bool, log: seq<Action>)

  const START := State(false, [], false, [])

  predicate EofIn(log: seq<Action>) {
    WriteEof(true) in log || WriteEof(false) in log
  }

  /** How many environment variables have been refused. */
  function Refusals(log: seq<Action>): nat {
    if log == [] then 0
    else Refusals(log[..|log| - 1]) + if log[|log| - 1].EnvRefused? then 1 else 0
  }

  function Envs(lo: nat, hi: nat): (s: seq<Request>)
    requires lo <= hi
    ensures |s| == hi - lo && forall i :: 0 <= i < |s| ==> s[i] == Env(lo + i)
    decreases hi - lo
  {
    if lo == hi then [] else [Env(lo)] + Envs(lo + 1, hi)
  }

  function If(c: bool, r: Request): seq<Request> {
    if c then [r] else []
  }

  /** Whether asking for the fallback command puts anything on the wire. */
  predicate CanSendFallback(setup: Setup) {
    setup.fallbackSubsystem ==> setup.canSubsystem
  }

  predicate CanSend(setup: Setup, r: Request) {
    match r
    case Env(_) => setup.canEnv
    case Fallback => CanSendFallback(setup)
    case _ => true
  }

  /** The primary command is a subsystem that cannot be asked for: its result is
      looked at, and the fallback is asked for at once. */
  predicate Retries(setup: Setup) {
    setup.subsystem && !setup.canSubsystem
  }

  function FinalRequest(setup: Setup): Request {
    if Retries(setup) then Fallback else Primary
  }

  function OpeningRequests(setup: Setup): seq<Request> {
    If(setup.x11, X11) + If(setup.agent, Agent) + If(setup.pty, Pty) + Envs(0, |setup.env|) + [FinalRequest(setup)]
  }

  function Sends(setup: Setup, rs: seq<Request>): seq<Action> {
    if rs == [] then []
    else
      var r := rs[|rs| - 1];
      Sends(setup, rs[..|rs| - 1]) + [Send(r, CanSend(setup, r))]
  }

  function Do(s: State, a: Action): State {
    s.(log := s.log + [a])
  }

  function SendAll(setup: Setup, s: State, rs: seq<Request>): State {
    s.(queue := s.queue + rs, log := s.log + Sends(setup, rs))
  }

  function BecomeReady(s: State): State {
    var s1 := Do(s, Ready);
    if s.asked && !EofIn(s.log) then Do(s1, WriteEof(true)) else s1
  }

  function Summary(refused: nat, total: nat): EnvSummary {
    if refused == 0 then AllSet else if refused == total then AllRefused else SomeRefused
  }

  /** A reply is credited to the oldest request counted as unanswered. */
  function Answered(setup: Setup, s: State, success: bool): State
    requires s.queue != []
  {
    var r := s.queue[0];
    var s1 := Do(s.(queue := s.queue[1..]), Credit(r, success));
    match r
    case X11 | Agent | Pty => s1
    case Env(j) =>
      var s2 := if success || j >= |setup.env| then s1 else Do(s1, EnvRefused(setup.env[j]));
      if s2.queue != [] && s2.queue[0].Env? then s2
      else Do(s2, EnvDone(Summary(Refusals(s2.log), |setup.env|)))
    case Primary =>
      if success then BecomeReady(s1)
      else if setup.hasFallback then SendAll(setup, s1, [Fallback])
      else Do(s1, Abort)
    case Fallback =>
      if success then BecomeReady(Do(s1, GotFallback)) else Do(s1, Abort)
  }

  function Step(setup: Setup, s: State, e: Event): State {
    match e
    case Opened =>
      if s.isOpen then s
      else if setup.session then SendAll(setup, s.(isOpen := true), OpeningRequests(setup))
      else BecomeReady(s.(isOpen := true))
    case Reply(success) => if s.queue == [] then s else Answered(setup, s, success)
    case RemoteEof(wanted) =>
      if !EofIn(s.log) && (wanted || Credit(Pty, true) in s.log) then Do(s, WriteEof(false)) else s
    case UserEof =>
      var s1 := s.(asked := true);
      if Ready in s.log && !EofIn(s.log) then Do(s1, WriteEof(true)) else s1
  }

  function Run(setup: Setup, events: seq<Event>): State {
    if events == [] then START
    else Step(setup, Run(setup, events[..|events| - 1]), events[|events| - 1])
  }

  // ----- what every run keeps

  /** The requests counted as asked for, in order. */
  function Counted(log: seq<Action>): seq<Request> {
    if log == [] then []
    else
      var a := log[|log| - 1];
      Counted(log[..|log| - 1]) + if a.Send? then [a.request] else []
  }

  /** The requests that really went out, in order. */
  function Sent(log: seq<Action>): seq<Request> {
    if log == [] then []
    else
      var a := log[|log| - 1];
      Sent(log[..|log| - 1]) + if a.Send? && a.sent then [a.request] else []
  }

  /** The requests that have been credited with a reply, in order. */
  function Credited(log: seq<Action>): seq<Request> {
    if log == [] then []
    else
      var a := log[|log| - 1];
      Credited(log[..|log| - 1]) + if a.Credit? then [a.request] else []
  }

  function Count(log: seq<Action>, what: set<Action>): nat {
    if log == [] then 0
    else Count(log[..|log| - 1], what) + if log[|log| - 1] in what then 1 else 0
  }

  predicate IsCommand(r: Request) {
    r.Primary? || r.Fallback?
  }

  /** A command request is always the last thing asked for. */
  predicate CommandLast(q: seq<Request>) {
    forall i :: 0 <= i < |q| - 1 ==> !IsCommand(q[i])
  }

  /** Replies are credited in the order of the requests: what has been credited
      followed by what is in the queue is what was counted. */
  predicate InOrder(s: State) {
    Credited(s.log) + s.queue == Counted(s.log)
  }

  const EOFS := {WriteEof(true), WriteEof(false)}

  /** The user's EOF goes out only once ready, and goes out as soon as it can. */
  predicate EofRules(s: State) {
    && Count(s.log, EOFS) <= 1
    && (forall i :: 0 <= i < |s.log| && s.log[i] == WriteEof(true) ==> Ready in s.log[..i])
    && (Ready in s.log && s.asked ==> EofIn(s.log))
  }

  predicate ReadyRules(s: State) {
    && CommandLast(s.queue)
    && Count(s.log, {Ready}) <= 1
    && (Ready in s.log ==> s.queue == [])
    && (!s.isOpen ==> s.queue == [] && Ready !in s.log)
  }

  /** A refusal names the variable that was refused. */
  predicate RefusalsNamed(setup: Setup, log: seq<Action>) {
    forall i :: 0 <= i < |log| && log[i].Credit? && log[i].request.Env? && !log[i].success ==>
      i + 1 < |log| && log[i].request.j < |setup.env| && log[i + 1] == EnvRefused(setup.env[log[i].request.j])
  }

  predicate EnvInRange(setup: Setup, q: seq<Request>) {
    forall i :: 0 <= i < |q| && q[i].Env? ==> q[i].j < |setup.env|
  }

  /** Everything that holds after any sequence of events. */
  predicate Inv(setup: Setup, s: State) {
    InOrder(s) && ReadyRules(s) && EofRules(s) && EnvInRange(setup, s.queue) && RefusalsNamed(setup, s.log)
  }

  // ----- one action at a time

  lemma SendsOne(setup: Setup, r: Request)
    ensures Sends(setup, [r]) == [Send(r, CanSend(setup, r))] && Sends(setup, []) == []
  {
    assert Sends(setup, [r][..0]) == [];
  }

  lemma Appended(log: seq<Action>, a: Action)
    ensures Counted(log + [a]) == Counted(log) + if a.Send? then [a.request] else []
    ensures Sent(log + [a]) == Sent(log) + if a.Send? && a.sent then [a.request] else []
    ensures Credited(log + [a]) == Credited(log) + if a.Credit? then [a.request] else []
    ensures Refusals(log + [a]) == Refusals(log) + if a.EnvRefused? then 1 else 0
    ensures Count(log + [a], {Ready}) == Count(log, {Ready}) + if a == Ready then 1 else 0
    ensures Count(log + [a], EOFS) == Count(log, EOFS) + if a.WriteEof? then 1 else 0
  {
    assert (log + [a])[..|log|] == log;
  }

  lemma {:induction false} NoneCounted(log: seq<Action>, what: set<Action>)
    requires forall a :: a in what ==> a !in log
    ensures Count(log, what) == 0
  {
    if log != [] {
      NoneCounted(log[..|log| - 1], what);
    }
  }

  /** The rules about EOF and readiness under one more action. */
  lemma DoKeeps(setup: Setup, s: State, a: Action)
    requires EofRules(s) && ReadyRules(s)
    requires a == Ready ==> s.isOpen && s.queue == [] && Ready !in s.log && (s.asked ==> EofIn(s.log))
    requires a.WriteEof? ==> !EofIn(s.log)
    requires a == WriteEof(true) ==> Ready in s.log
    ensures EofRules(Do(s, a)) && ReadyRules(Do(s, a))
  {
    Appended(s.log, a);
    NoneCounted(s.log, if a == Ready then {Ready} else if a.WriteEof? then EOFS else {});
    var t := Do(s, a).log;
    forall i | 0 <= i < |t| && t[i] == WriteEof(true) ensures Ready in t[..i] {
      assert t[..i] == s.log[..i];
    }
  }

  lemma Named(setup: Setup, log: seq<Action>, a: Action)
    requires RefusalsNamed(setup, log)
    requires !(a.Credit? && a.request.Env? && !a.success)
    ensures RefusalsNamed(setup, log + [a])
  {
  }

  /** An action that neither sends nor credits a request. */
  lemma PlainKeeps(setup: Setup, s: State, a: Action)
    requires Inv(setup, s) && !a.Send? && !a.Credit?
    requires a == Ready ==> s.isOpen && s.queue == [] && Ready !in s.log && (s.asked ==> EofIn(s.log))
    requires a.WriteEof? ==> !EofIn(s.log)
    requires a == WriteEof(true) ==> Ready in s.log
    ensures Inv(setup, Do(s, a))
  {
    hide EofRules, ReadyRules, RefusalsNamed;
    DoKeeps(setup, s, a);
    Appended(s.log, a);
    Named(setup, s.log, a);
  }

  lemma BecomeReadyKeeps(setup: Setup, s: State)
    requires Inv(setup, s) && s.isOpen && s.queue == [] && Ready !in s.log
    ensures Inv(setup, BecomeReady(s))
  {
    hide InOrder, ReadyRules, RefusalsNamed;
    if s.asked && !EofIn(s.log) {
      var s0 := s.(asked := false);
      assert Inv(setup, s0) by { Unasked(s); }
      PlainKeeps(setup, s0, Ready);
      var s1 := Do(s0, Ready);
      PlainKeeps(setup, s1, WriteEof(true));
      var s2 := Do(s1, WriteEof(true));
      AskedAfter(s2);
      assert s2.(asked := true) == BecomeReady(s);
    } else {
      PlainKeeps(setup, s, Ready);
    }
  }

  lemma Unasked(s: State)
    requires EofRules(s) && ReadyRules(s) && InOrder(s)
    ensures var t := s.(asked := false); EofRules(t) && ReadyRules(t) && InOrder(t)
  {
  }

  lemma AskedAfter(s: State)
    requires EofRules(s) && ReadyRules(s) && InOrder(s) && (Ready in s.log ==> EofIn(s.log))
    ensures var t := s.(asked := true); EofRules(t) && ReadyRules(t) && InOrder(t)
  {
  }

  lemma CreditKeeps(setup: Setup, s: State, success: bool)
    requires Inv(setup, s) && s.queue != []
    ensures var s1 := Do(s.(queue := s.queue[1..]), Credit(s.queue[0], success));
      InOrder(s1) && ReadyRules(s1) && EofRules(s1) && EnvInRange(setup, s1.queue) && Ready !in s1.log && s1.isOpen
    ensures IsCommand(s.queue[0]) ==> |s.queue| == 1
  {
    var r := s.queue[0];
    var s0 := s.(queue := s.queue[1..]);
    assert s.queue == [r] + s.queue[1..];
    Appended(s.log, Credit(r, success));
    assert Credited(s.log) + s.queue == Credited(s.log) + [r] + s.queue[1..];
    DoKeeps(setup, s0, Credit(r, success));
  }

  lemma {:induction false} SendAllKeeps(setup: Setup, s: State, rs: seq<Request>)
    requires Inv(setup, s) && s.isOpen && Ready !in s.log
    requires CommandLast(s.queue + rs) && EnvInRange(setup, s.queue + rs)
    ensures Inv(setup, SendAll(setup, s, rs)) && Ready !in SendAll(setup, s, rs).log
  {
    hide Inv, CommandLast, EnvInRange;
    if rs == [] {
      assert SendAll(setup, s, rs) == s;
    } else {
      var n := |rs| - 1;
      var s1 := SendAll(setup, s, rs[..n]);
      var sent := CanSend(setup, rs[n]);
      assert s.queue + rs == s1.queue + [rs[n]];
      assert s.log + Sends(setup, rs) == s1.log + [Send(rs[n], sent)];
      PrefixShape(setup, s1.queue, rs[n]);
      SendAllKeeps(setup, s, rs[..n]);
      SendKeeps(setup, s1, rs[n], sent);
    }
  }

  lemma PrefixShape(setup: Setup, q: seq<Request>, r: Request)
    requires CommandLast(q + [r]) && EnvInRange(setup, q + [r])
    ensures CommandLast(q) && EnvInRange(setup, q)
  {
    assert forall i :: 0 <= i < |q| ==> q[i] == (q + [r])[i];
  }

  lemma SendKeeps(setup: Setup, s: State, r: Request, sent: bool)
    requires Inv(setup, s) && s.isOpen && Ready !in s.log
    requires CommandLast(s.queue + [r]) && EnvInRange(setup, s.queue + [r])
    ensures var t := s.(queue := s.queue + [r], log := s.log + [Send(r, sent)]);
      Inv(setup, t) && Ready !in t.log
  {
    hide RefusalsNamed;
    Appended(s.log, Send(r, sent));
    Named(setup, s.log, Send(r, sent));
    assert EofRules(Do(s, Send(r, sent))) by { DoKeeps(setup, s, Send(r, sent)); }
  }

  lemma AnsweredKeeps(setup: Setup, s: State, success: bool)
    requires Inv(setup, s) && s.queue != []
    ensures Inv(setup, Answered(setup, s, success))
  {
    hide InOrder, ReadyRules, EofRules, RefusalsNamed, EnvInRange, Refusals;
    var r := s.queue[0];
    var s1 := Do(s.(queue := s.queue[1..]), Credit(r, success));
    CreditKeeps(setup, s, success);
    match r
    case X11 | Agent | Pty =>
      Named(setup, s.log, Credit(r, success));
    case Env(j) =>
      EnvAnsweredKeeps(setup, s, success);
    case Primary =>
      Named(setup, s.log, Credit(r, success));
      if success {
        BecomeReadyKeeps(setup, s1);
      } else if setup.hasFallback {
        SendAllKeeps(setup, s1, [Fallback]) by { FallbackShape(setup, s1.queue); }
      } else {
        PlainKeeps(setup, s1, Abort);
      }
    case Fallback =>
      Named(setup, s.log, Credit(r, success));
      if success {
        PlainKeeps(setup, s1, GotFallback);
        BecomeReadyKeeps(setup, Do(s1, GotFallback));
      } else {
        PlainKeeps(setup, s1, Abort);
      }
  }

  lemma FallbackShape(setup: Setup, q: seq<Request>)
    requires q == []
    ensures var q' := q + [Fallback]; CommandLast(q') && EnvInRange(setup, q')
  {
  }

  lemma EnvAnsweredKeeps(setup: Setup, s: State, success: bool)
    requires Inv(setup, s) && s.queue != [] && s.queue[0].Env?
    ensures Inv(setup, Answered(setup, s, success))
  {
    hide InOrder, ReadyRules, EofRules, RefusalsNamed, EnvInRange, Refusals;
    var r := s.queue[0];
    var s1 := Do(s.(queue := s.queue[1..]), Credit(r, success));
    CreditKeeps(setup, s, success);
    assert r.j < |setup.env| by { EnvHead(setup, s.queue); }
    var refused := EnvRefused(setup.env[r.j]);
    var s2 := if success then s1 else Do(s1, refused);
    if success {
      Named(setup, s.log, Credit(r, true));
    } else {
      DoKeeps(setup, s1, refused);
      Plain(s1, refused);
      NamedRefusal(setup, s.log, r.j);
    }
    PlainKeeps(setup, s2, EnvDone(Summary(Refusals(s2.log), |setup.env|)));
  }

  lemma EnvHead(setup: Setup, q: seq<Request>)
    requires EnvInRange(setup, q) && q != [] && q[0].Env?
    ensures q[0].j < |setup.env|
  {
  }

  lemma NamedRefusal(setup: Setup, log: seq<Action>, j: nat)
    requires RefusalsNamed(setup, log) && j < |setup.env|
    ensures RefusalsNamed(setup, log + [Credit(Env(j), false)] + [EnvRefused(setup.env[j])])
  {
  }

  lemma Plain(s: State, a: Action)
    requires InOrder(s) && !a.Send? && !a.Credit?
    ensures InOrder(Do(s, a))
  {
    Appended(s.log, a);
  }

  lemma OpeningShape(setup: Setup)
    ensures CommandLast(OpeningRequests(setup)) && EnvInRange(setup, OpeningRequests(setup))
  {
  }

  lemma StepKeeps(setup: Setup, s: State, e: Event)
    requires Inv(setup, s)
    ensures Inv(setup, Step(setup, s, e))
  {
    match e
    case Opened =>
      if !s.isOpen {
        hide OpeningRequests, BecomeReady;
        var s1 := s.(isOpen := true);
        if setup.session {
          OpeningShape(setup);
          assert s1.queue + OpeningRequests(setup) == OpeningRequests(setup);
          SendAllKeeps(setup, s1, OpeningRequests(setup));
        } else {
          BecomeReadyKeeps(setup, s1);
        }
      }
    case Reply(success) =>
      hide Inv;
      if s.queue != [] {
        AnsweredKeeps(setup, s, success);
      }
    case RemoteEof(_) =>
      hide InOrder, ReadyRules, RefusalsNamed;
      if !EofIn(s.log) {
        PlainKeeps(setup, s, WriteEof(false));
      }
    case UserEof =>
      hide RefusalsNamed;
      if Ready in s.log && !EofIn(s.log) {
        PlainKeeps(setup, s, WriteEof(true));
        AskedAfter(Do(s, WriteEof(true)));
      } else {
        AskedAfter(s);
      }
  }

  /** The main theorem: whatever the interleaving of replies, user EOFs and
      remote EOFs, replies are credited in order, refusals name the right
      variable, the primary and fallback commands are never both waiting,
      readiness comes once with nothing waiting, and the EOF rules hold. */
  lemma {:induction false} RunsAreSafe(setup: Setup, events: seq<Event>)
    ensures Inv(setup, Run(setup, events))
    ensures Run(setup, events).asked <==> UserEof in events
    ensures Run(setup, events).isOpen <==> Opened in events
  {
    if events == [] {
      StartIsSafe(setup);
    } else {
      hide Inv, Step;
      var n := |events| - 1;
      RunsAreSafe(setup, events[..n]);
      StepKeeps(setup, Run(setup, events[..n]), events[n]);
      StepRemembers(setup, Run(setup, events[..n]), events[n]);
      assert events == events[..n] + [events[n]];
    }
  }

  lemma StepRemembers(setup: Setup, s: State, e: Event)
    ensures Step(setup, s, e).asked == (s.asked || e == UserEof)
    ensures Step(setup, s, e).isOpen == (s.isOpen || e == Opened)
  {
    hide EofIn, OpeningRequests, Refusals;
  }

  lemma StartIsSafe(setup: Setup)
    ensures Inv(setup, START)
  {
  }

  /** In particular: the k-th reply is credited to the k-th request counted, the
      two command requests never wait together, a user's EOF waits for readiness,
      and once ready a requested EOF has gone out. */
  lemma RunsInWords(setup: Setup, events: seq<Event>)
    ensures var s := Run(setup, events);
      && Credited(s.log) <= Counted(s.log)
      && s.queue == Counted(s.log)[|Credited(s.log)|..]
      && !(Primary in s.queue && Fallback in s.queue)
      && (Ready in s.log && UserEof in events ==> EofIn(s.log))
      && (Ready !in s.log ==> WriteEof(true) !in s.log)
  {
    RunsAreSafe(setup, events);
    var s := Run(setup, events);
    assert Counted(s.log)[..|Credited(s.log)|] == Credited(s.log);
    if WriteEof(true) in s.log {
      var i :| 0 <= i < |s.log| && s.log[i] == WriteEof(true);
      assert Ready in s.log[..i];
    }
  }
}
