/**
 What the main channel's reference machine does, told by its log and the events
 alone: which requests are counted and in which order, what follows each reply,
 and when an EOF is written.
 */
module MainChannelWords {
  import opened Marshal
  import opened MainChannelSpec

  // ----- what one event says

  /** What the answer r, ok to the oldest request says; `next` is whether another
      environment variable is waiting, `refused` how many have been refused before. */
  function AnswerSays(setup: Setup, s: State, ok: bool): seq<Action>
    requires s.queue != []
  {
    var r := s.queue[0];
    [Credit(r, ok)] +
    match r
    case X11 | Agent | Pty => []
    case Env(j) => EnvSays(setup, s, ok)
    case Primary =>
      if ok then ReadySays(s)
      else if setup.hasFallback then [Send(Fallback, CanSendFallback(setup))]
      else [Abort]
    case Fallback => if ok then [GotFallback] + ReadySays(s) else [Abort]
  }

  function EnvSays(setup: Setup, s: State, ok: bool): seq<Action>
    requires s.queue != [] && s.queue[0].Env?
  {
    var j := s.queue[0].j;
    var refusal := if ok || j >= |setup.env| then [] else [EnvRefused(setup.env[j])];
    refusal +
    if |s.queue| > 1 && s.queue[1].Env? then []
    else [EnvDone(Summary(Refusals(s.log) + |refusal|, |setup.env|))]
  }

  function ReadySays(s: State): seq<Action> {
    [Ready] + if s.asked && !EofIn(s.log) then [WriteEof(true)] else []
  }

  function Says(setup: Setup, s: State, e: Event): seq<Action> {
    match e
    case Opened =>
      if s.isOpen then [] else if setup.session then Sends(setup, OpeningRequests(setup)) else ReadySays(s)
    case Reply(ok) => if s.queue == [] then [] else AnswerSays(setup, s, ok)
    case RemoteEof(wanted) => RemoteEofSays(s, wanted)
    case UserEof => if Ready in s.log && !EofIn(s.log) then [WriteEof(true)] else []
  }

  /** A remote EOF is answered once, if the front end asks or a pty was granted. */
  function RemoteEofSays(s: State, wanted: bool): seq<Action> {
    if !EofIn(s.log) && (wanted || Credit(Pty, true) in s.log) then [WriteEof(false)] else []
  }

  lemma StepSays(setup: Setup, s: State, e: Event)
    ensures Step(setup, s, e).log == s.log + Says(setup, s, e)
  {
    hide OpeningRequests, Sends;
    match e
    case Opened =>
    case Reply(ok) =>
      if s.queue != [] {
        AnsweredSays(setup, s, ok);
      }
    case RemoteEof(_) =>
    case UserEof =>
  }

  lemma AnsweredSays(setup: Setup, s: State, ok: bool)
    requires s.queue != []
    ensures Answered(setup, s, ok).log == s.log + AnswerSays(setup, s, ok)
  {
    match s.queue[0]
    case X11 | Agent | Pty =>
    case Env(j) => EnvAnsweredSays(setup, s, ok);
    case Primary => CommandAnsweredSays(setup, s, ok);
    case Fallback => CommandAnsweredSays(setup, s, ok);
  }

  lemma EnvAnsweredSays(setup: Setup, s: State, ok: bool)
    requires s.queue != [] && s.queue[0].Env?
    ensures Answered(setup, s, ok).log == s.log + AnswerSays(setup, s, ok)
  {
    hide *;
    var c, j := Credit(s.queue[0], ok), s.queue[0].j;
    var refusal := if ok || j >= |setup.env| then [] else [EnvRefused(setup.env[j])];
    var done := if |s.queue| > 1 && s.queue[1].Env? then []
      else [EnvDone(Summary(Refusals(s.log) + |refusal|, |setup.env|))];
    RefusalsThen(s.log, c, refusal);
    RefusedThen(s.log, c, refusal, done);
    EnvAnsweredLog(setup, s, ok, refusal);
    EnvSaysAre(setup, s, ok, refusal, done);
  }

  lemma RefusalsThen(log: seq<Action>, c: Action, refusal: seq<Action>)
    requires c.Credit? && (refusal == [] || (|refusal| == 1 && refusal[0].EnvRefused?))
    ensures Refusals(log + [c] + refusal) == Refusals(log) + |refusal|
  {
    Appended(log, c);
    if refusal == [] {
      assert log + [c] + [] == log + [c];
    } else {
      Appended(log + [c], refusal[0]);
      assert refusal == [refusal[0]];
    }
  }

  lemma RefusedThen(log: seq<Action>, c: Action, refusal: seq<Action>, done: seq<Action>)
    ensures log + ([c] + (refusal + done)) == log + [c] + refusal + done
  {
  }

  lemma EnvSaysAre(setup: Setup, s: State, ok: bool, refusal: seq<Action>, done: seq<Action>)
    requires s.queue != [] && s.queue[0].Env?
    requires refusal == if ok || s.queue[0].j >= |setup.env| then [] else [EnvRefused(setup.env[s.queue[0].j])]
    requires done == if |s.queue| > 1 && s.queue[1].Env? then []
      else [EnvDone(Summary(Refusals(s.log) + |refusal|, |setup.env|))]
    ensures AnswerSays(setup, s, ok) == [Credit(s.queue[0], ok)] + (refusal + done)
  {
  }

  lemma EnvAnsweredLog(setup: Setup, s: State, ok: bool, refusal: seq<Action>)
    requires s.queue != [] && s.queue[0].Env?
    requires refusal == if ok || s.queue[0].j >= |setup.env| then [] else [EnvRefused(setup.env[s.queue[0].j])]
    ensures var log := s.log + [Credit(s.queue[0], ok)] + refusal;
      Answered(setup, s, ok).log == log + if |s.queue| > 1 && s.queue[1].Env? then []
        else [EnvDone(Summary(Refusals(log), |setup.env|))]
  {
    hide Summary;
    var q := s.queue[1..];
    assert q != [] ==> q[0] == s.queue[1];
    var log := s.log + [Credit(s.queue[0], ok)];
    assert log + [] == log && log + refusal + [] == log + refusal;
  }

  lemma CommandAnsweredSays(setup: Setup, s: State, ok: bool)
    requires s.queue != [] && IsCommand(s.queue[0])
    ensures Answered(setup, s, ok).log == s.log + AnswerSays(setup, s, ok)
  {
    hide Refusals, EofIn, Sends;
    var c := Credit(s.queue[0], ok);
    NotEof(s.log, c);
    NotEof(s.log + [c], GotFallback);
    SendsOne(setup, Fallback);
  }

  lemma NotEof(log: seq<Action>, a: Action)
    requires !a.WriteEof?
    ensures EofIn(log + [a]) <==> EofIn(log)
  {
  }

  // ----- which event said what

  /** The log before the event at position i. */
  function LogAt(setup: Setup, events: seq<Event>, i: nat): seq<Action>
    requires i <= |events|
  {
    Run(setup, events[..i]).log
  }

  lemma LogStep(setup: Setup, events: seq<Event>, i: nat)
    requires i < |events|
    ensures LogAt(setup, events, i + 1)
         == LogAt(setup, events, i) + Says(setup, Run(setup, events[..i]), events[i])
  {
    hide Step, Says;
    assert events[..i + 1][..i] == events[..i];
    StepSays(setup, Run(setup, events[..i]), events[i]);
  }

  lemma {:induction false} LogGrows(setup: Setup, events: seq<Event>, i: nat, j: nat)
    requires i <= j <= |events|
    ensures LogAt(setup, events, i) <= LogAt(setup, events, j)
    decreases j - i
  {
    hide LogAt, Says;
    if i < j {
      LogStep(setup, events, j - 1);
      LogGrows(setup, events, i, j - 1);
    }
  }

  lemma NothingYet(setup: Setup, events: seq<Event>)
    ensures LogAt(setup, events, 0) == []
  {
  }

  lemma EveryEvent(setup: Setup, events: seq<Event>)
    ensures LogAt(setup, events, |events|) == Run(setup, events).log
  {
    assert events[..|events|] == events;
  }

  /** The event at position i says a as the n-th thing, at position k of the log. */
  predicate Emits(setup: Setup, events: seq<Event>, i: nat, k: nat, n: nat, a: Action) {
    && i < |events| && k == |LogAt(setup, events, i)| + n
    && n < |Says(setup, Run(setup, events[..i]), events[i])|
    && Says(setup, Run(setup, events[..i]), events[i])[n] == a
  }

  /** Some event put position k into the log. */
  lemma {:induction false} Emitter(setup: Setup, events: seq<Event>, j: nat, k: nat) returns (i: nat, n: nat)
    requires j <= |events| && k < |LogAt(setup, events, j)|
    ensures i < j && Emits(setup, events, i, k, n, LogAt(setup, events, j)[k])
    decreases j
  {
    hide LogAt, Says;
    NothingYet(setup, events);
    if j > 0 {
      LogStep(setup, events, j - 1);
      if k >= |LogAt(setup, events, j - 1)| {
        i, n := j - 1, k - |LogAt(setup, events, j - 1)|;
      } else {
        i, n := Emitter(setup, events, j - 1, k);
      }
    }
  }

  lemma LogBefore(setup: Setup, events: seq<Event>, i: nat)
    requires i < |events|
    ensures var k, log := |LogAt(setup, events, i)|, Run(setup, events).log;
      var says := Says(setup, Run(setup, events[..i]), events[i]);
      && k + |says| <= |log| && log[..k] == LogAt(setup, events, i) && log[k..k + |says|] == says
  {
    hide LogAt, Says;
    EveryEvent(setup, events);
    LogStep(setup, events, i);
    LogGrows(setup, events, i + 1, |events|);
    InFront(LogAt(setup, events, i), Says(setup, Run(setup, events[..i]), events[i]), LogAt(setup, events, |events|));
  }

  lemma InFront(a: seq<Action>, says: seq<Action>, log: seq<Action>)
    requires a + says <= log
    ensures |a| + |says| <= |log| && log[..|a|] == a && log[|a|..|a| + |says|] == says
  {
    var n := |a| + |says|;
    assert log[..n] == a + says;
    assert log[..n][..|a|] == log[..|a|] && log[..n][|a|..] == log[|a|..n];
  }

  /** A remote EOF is answered if the front end asks for it or a pty has been
      granted: afterwards an EOF has been written. */
  lemma RemoteEofAnswered(setup: Setup, events: seq<Event>, i: nat)
    requires i < |events| && events[i].RemoteEof?
    requires events[i].seatWantsEof || Credit(Pty, true) in LogAt(setup, events, i)
    ensures EofIn(Run(setup, events).log)
  {
    LogBefore(setup, events, i);
    var k, log := |LogAt(setup, events, i)|, Run(setup, events).log;
    hide Run;
    if EofIn(LogAt(setup, events, i)) {
      assert EofIn(log[..k]);
    } else {
      assert log[k..k + 1][0] == WriteEof(false);
    }
  }

  /** Only then: every EOF in answer to the far end was written by such an event. */
  lemma RemoteEofOnly(setup: Setup, events: seq<Event>, k: nat) returns (i: nat)
    requires k < |Run(setup, events).log| && Run(setup, events).log[k] == WriteEof(false)
    ensures i < |events| && events[i].RemoteEof? && |LogAt(setup, events, i)| == k
    ensures events[i].seatWantsEof || Credit(Pty, true) in Run(setup, events).log[..k]
  {
    hide Run, Says;
    EveryEvent(setup, events);
    var n;
    i, n := Emitter(setup, events, |events|, k);
    SaysAt(setup, Run(setup, events[..i]), events[i], n);
    LogBefore(setup, events, i);
  }

  /** What can be said as the n-th thing by one event. */
  lemma SaysAt(setup: Setup, s: State, e: Event, n: nat)
    requires n < |Says(setup, s, e)|
    ensures var a := Says(setup, s, e)[n];
      && (a == WriteEof(false) ==>
          e.RemoteEof? && n == 0 && (e.seatWantsEof || Credit(Pty, true) in s.log))
      && (a == WriteEof(true) ==> (s.asked || e == UserEof) && (Ready in s.log || (n > 0 && Says(setup, s, e)[n - 1] == Ready)))
      && (a.Credit? ==> n == 0 && e == Reply(a.success) && s.queue != [] && s.queue[0] == a.request)
  {
    hide Refusals, OpeningRequests, EofIn;
    if e.Opened? && !s.isOpen && setup.session {
      OnlySends(setup, OpeningRequests(setup));
      assert Says(setup, s, e)[n] in Sends(setup, OpeningRequests(setup));
    }
  }

  lemma {:induction false} OnlySends(setup: Setup, rs: seq<Request>)
    ensures forall a :: a in Sends(setup, rs) ==> a.Send?
  {
    hide CanSend;
    if rs != [] {
      OnlySends(setup, rs[..|rs| - 1]);
    }
  }

  /** The user's EOF is written only once the user has asked and the channel has
      become ready. */
  lemma UserEofOnly(setup: Setup, events: seq<Event>, k: nat)
    requires k < |Run(setup, events).log| && Run(setup, events).log[k] == WriteEof(true)
    ensures UserEof in events && Ready in Run(setup, events).log[..k]
  {
    hide Run, Says, Inv;
    EveryEvent(setup, events);
    var i, n := Emitter(setup, events, |events|, k);
    SaysAt(setup, Run(setup, events[..i]), events[i], n);
    LogBefore(setup, events, i);
    RunsAreSafe(setup, events[..i]);
    var log, m := Run(setup, events).log, |LogAt(setup, events, i)|;
    assert Run(setup, events[..i]).log == LogAt(setup, events, i) == log[..m];
    if Ready in log[..m] {
      assert log[..k][..m] == log[..m];
    } else {
      assert log[m..][n - 1] == Ready == log[..k][k - 1];
    }
    assert events[i] in events && forall e :: e in events[..i] ==> e in events;
  }

  /** Every credit is a reply with that result, to the request that was the oldest
      counted, */
  lemma CreditsAreReplies(setup: Setup, events: seq<Event>, k: nat) returns (i: nat)
    requires k < |Run(setup, events).log| && Run(setup, events).log[k].Credit?
    ensures i < |events| && |LogAt(setup, events, i)| == k && Run(setup, events[..i]).queue != []
    ensures var a := Run(setup, events).log[k];
      events[i] == Reply(a.success) && a.request == Run(setup, events[..i]).queue[0]
  {
    hide Run, Says;
    EveryEvent(setup, events);
    var n;
    i, n := Emitter(setup, events, |events|, k);
    SaysAt(setup, Run(setup, events[..i]), events[i], n);
  }

  /** and every reply to a counted request is credited so. */
  lemma RepliesAreCredited(setup: Setup, events: seq<Event>, i: nat)
    requires i < |events| && events[i].Reply? && Run(setup, events[..i]).queue != []
    ensures var k, log := |LogAt(setup, events, i)|, Run(setup, events).log;
      k < |log| && log[k] == Credit(Run(setup, events[..i]).queue[0], events[i].success)
  {
    hide Run, EnvSays, ReadySays;
    LogBefore(setup, events, i);
    var k, log := |LogAt(setup, events, i)|, Run(setup, events).log;
    assert log[k] == log[k..k + |Says(setup, Run(setup, events[..i]), events[i])|][0];
  }

  // ----- what follows a reply, and why anything is said at all

  predicate Then(log: seq<Action>, i: nat, a: Action) {
    i + 1 < |log| && log[i + 1] == a
  }

  /** What comes right after the reply to a command. */
  predicate Followed(setup: Setup, log: seq<Action>, i: nat)
    requires i < |log|
  {
    var a := log[i];
    a.Credit? ==>
      match a.request
      case Primary =>
        Then(log, i, if a.success then Ready
          else if setup.hasFallback then Send(Fallback, setup.fallbackSubsystem ==> setup.canSubsystem)
          else Abort)
      case Fallback =>
        if a.success then Then(log, i, GotFallback) && Then(log, i + 1, Ready) else Then(log, i, Abort)
      case _ => true
  }

  predicate AllFollowed(setup: Setup, log: seq<Action>) {
    forall i :: 0 <= i < |log| ==> Followed(setup, log, i)
  }

  lemma FollowedAppend(setup: Setup, log: seq<Action>, more: seq<Action>)
    requires AllFollowed(setup, log) && AllFollowed(setup, more)
    ensures AllFollowed(setup, log + more)
  {
    var t := log + more;
    forall i | 0 <= i < |t| ensures Followed(setup, t, i) {
      if i < |log| {
        assert Followed(setup, log, i);
        assert t[i] == log[i] && (i + 1 < |log| ==> t[i + 1] == log[i + 1]) && (i + 2 < |log| ==> t[i + 2] == log[i + 2]);
      } else {
        var k := i - |log|;
        assert Followed(setup, more, k);
        assert t[i] == more[k] && (k + 1 < |more| ==> t[i + 1] == more[k + 1]) && (k + 2 < |more| ==> t[i + 2] == more[k + 2]);
      }
    }
  }

  lemma SaysFollowed(setup: Setup, s: State, e: Event)
    ensures AllFollowed(setup, Says(setup, s, e))
  {
    var says := Says(setup, s, e);
    forall i | 0 <= i < |says| ensures Followed(setup, says, i) {
      SaysAt(setup, s, e, i);
      hide EnvSays, OpeningRequests;
    }
  }

  /** Readiness, abortion and the note about the fallback have these reasons. */
  predicate Explained(setup: Setup, s: State) {
    && (Ready in s.log <==>
        (s.isOpen && !setup.session) || Credit(Primary, true) in s.log || Credit(Fallback, true) in s.log)
    && (Abort in s.log <==>
        Credit(Fallback, false) in s.log || (Credit(Primary, false) in s.log && !setup.hasFallback))
    && (GotFallback in s.log <==> Credit(Fallback, true) in s.log)
  }

  lemma SaysMembers(setup: Setup, s: State, e: Event)
    ensures var says := Says(setup, s, e);
      var command := e.Reply? && s.queue != [] && IsCommand(s.queue[0]);
      && (Ready in says <==> (e.Opened? && !s.isOpen && !setup.session) || (command && e.success))
      && (Abort in says <==> command && !e.success && (s.queue[0].Fallback? || !setup.hasFallback))
      && (GotFallback in says <==> command && e.success && s.queue[0].Fallback?)
      && (forall r, ok :: IsCommand(r) ==> (Credit(r, ok) in says <==> command && e.success == ok && s.queue[0] == r))
  {
    hide OpeningRequests, Refusals, Summary, EofIn;
    if e.Opened? && setup.session {
      OnlySends(setup, OpeningRequests(setup));
    }
  }

  lemma ExplainedStep(setup: Setup, s: State, e: Event)
    requires Explained(setup, s)
    ensures Explained(setup, Step(setup, s, e))
  {
    hide Step, Says;
    StepSays(setup, s, e);
    StepRemembers(setup, s, e);
    SaysMembers(setup, s, e);
  }

  /** Over whole runs: what follows each reply, why anything is said, and when an
      EOF is written. */
  lemma {:induction false} RepliesHaveTheirEffect(setup: Setup, events: seq<Event>)
    ensures AllFollowed(setup, Run(setup, events).log) && Explained(setup, Run(setup, events))
  {
    if events != [] {
      hide Step, Says, AllFollowed, Explained;
      var n := |events| - 1;
      var s := Run(setup, events[..n]);
      RepliesHaveTheirEffect(setup, events[..n]);
      StepSays(setup, s, events[n]);
      SaysFollowed(setup, s, events[n]);
      FollowedAppend(setup, s.log, Says(setup, s, events[n]));
      ExplainedStep(setup, s, events[n]);
    }
  }

  // ----- which requests are counted, and in which order

  function Class(r: Request): nat {
    match r
    case X11 => 0
    case Agent => 1
    case Pty => 2
    case Env(_) => 3
    case Primary => 4
    case Fallback => 5
  }

  predicate Earlier(r: Request, t: Request) {
    Class(r) < Class(t) || (r.Env? && t.Env? && r.j < t.j)
  }

  predicate Increasing(rs: seq<Request>) {
    forall i, j :: 0 <= i < j < |rs| ==> Earlier(rs[i], rs[j])
  }

  lemma IncreasingAppend(a: seq<Request>, b: seq<Request>)
    requires Increasing(a) && Increasing(b)
    requires forall r, t :: r in a && t in b ==> Earlier(r, t)
    ensures Increasing(a + b)
  {
    hide Earlier;
    forall i, j | 0 <= i < j < |a + b| ensures Earlier((a + b)[i], (a + b)[j]) {
      if j < |a| {
        assert Earlier(a[i], a[j]);
      } else if i >= |a| {
        assert Earlier(b[i - |a|], b[j - |a|]);
      }
    }
  }

  lemma EnvMembers(n: nat)
    ensures Increasing(Envs(0, n)) && forall r :: r in Envs(0, n) <==> r.Env? && r.j < n
  {
    var es := Envs(0, n);
    forall r: Request | r.Env? && r.j < n ensures r in es {
      assert es[r.j] == r;
    }
  }

  /** The opening requests are made in the order of their classes. */
  lemma OpeningInWords(setup: Setup)
    ensures Increasing(OpeningRequests(setup))
    ensures forall r :: r in OpeningRequests(setup) <==>
      match r
      case X11 => setup.x11
      case Agent => setup.agent
      case Pty => setup.pty
      case Env(j) => j < |setup.env|
      case Primary => !(setup.subsystem && !setup.canSubsystem)
      case Fallback => setup.subsystem && !setup.canSubsystem
  {
    var a := If(setup.x11, X11) + If(setup.agent, Agent);
    var b := a + If(setup.pty, Pty);
    var c := b + Envs(0, |setup.env|);
    EnvMembers(|setup.env|);
    hide Envs;
    IncreasingAppend(If(setup.x11, X11), If(setup.agent, Agent));
    IncreasingAppend(a, If(setup.pty, Pty));
    IncreasingAppend(b, Envs(0, |setup.env|));
    IncreasingAppend(c, [FinalRequest(setup)]);
  }

  /** The opening requests once the session is open, and the fallback once the
      primary command has been refused. */
  function CountedFor(setup: Setup, open: bool, refused: bool): seq<Request> {
    if open && setup.session then OpeningRequests(setup) + If(refused && setup.hasFallback, Fallback) else []
  }

  predicate AskedFor(setup: Setup, s: State) {
    Counted(s.log) == CountedFor(setup, s.isOpen, Credit(Primary, false) in s.log)
  }

  lemma {:induction false} CreditedIn(log: seq<Action>, r: Request)
    ensures r in Credited(log) <==> Credit(r, true) in log || Credit(r, false) in log
  {
    if log != [] {
      var n := |log| - 1;
      CreditedIn(log[..n], r);
      assert log == log[..n] + [log[n]];
    }
  }

  lemma {:induction false} CountedAppend(log: seq<Action>, more: seq<Action>)
    ensures Counted(log + more) == Counted(log) + Counted(more)
  {
    if more == [] {
      assert log + more == log;
    } else {
      var n := |more| - 1;
      CountedAppend(log, more[..n]);
      assert (log + more)[..|log| + n] == log + more[..n];
    }
  }

  lemma {:induction false} CountedSends(setup: Setup, rs: seq<Request>)
    ensures Counted(Sends(setup, rs)) == rs
  {
    hide CanSend;
    if rs != [] {
      var n := |rs| - 1;
      CountedSends(setup, rs[..n]);
      assert Sends(setup, rs)[..|Sends(setup, rs[..n])|] == Sends(setup, rs[..n]);
    }
  }

  lemma {:induction false} CountedNone(log: seq<Action>)
    requires forall a :: a in log ==> !a.Send?
    ensures Counted(log) == []
  {
    if log != [] {
      assert forall a :: a in log[..|log| - 1] ==> a in log;
      CountedNone(log[..|log| - 1]);
      assert log[|log| - 1] in log;
    }
  }

  lemma SaysCounted(setup: Setup, s: State, e: Event)
    ensures Counted(Says(setup, s, e)) ==
      if e.Opened? && !s.isOpen && setup.session then OpeningRequests(setup)
      else if e == Reply(false) && s.queue != [] && s.queue[0] == Primary && setup.hasFallback then [Fallback]
      else []
  {
    hide OpeningRequests, Summary, EofIn, CanSendFallback;
    var says := Says(setup, s, e);
    if e.Opened? && !s.isOpen && setup.session {
      CountedSends(setup, OpeningRequests(setup));
    } else if e == Reply(false) && s.queue != [] && s.queue[0] == Primary && setup.hasFallback {
      var c, f := Credit(Primary, false), Send(Fallback, CanSendFallback(setup));
      assert says == [c] + [f];
      Appended([c], f);
      Appended([], c);
      assert [] + [c] == [c];
    } else {
      CountedNone(says);
    }
  }

  lemma CountedForIncreasing(setup: Setup, open: bool, refused: bool)
    requires refused ==> Primary in CountedFor(setup, open, refused)
    ensures Increasing(CountedFor(setup, open, refused))
  {
    hide OpeningRequests;
    OpeningInWords(setup);
    var rs := OpeningRequests(setup);
    if open && setup.session {
      if refused && setup.hasFallback {
        IncreasingAppend(rs, [Fallback]);
      } else {
        assert rs + [] == rs;
      }
    }
  }

  /** The counted requests of any state that a run reaches are in order, and the
      oldest has had no reply. */
  lemma InOrderNow(setup: Setup, s: State)
    requires InOrder(s) && AskedFor(setup, s)
    ensures Increasing(Counted(s.log))
    ensures s.queue != [] ==> s.queue[0] !in Credited(s.log)
  {
    hide CountedFor, Earlier;
    var credited, counted := Credited(s.log), Counted(s.log);
    CreditedIn(s.log, Primary);
    assert forall r :: r in credited ==> r in counted;
    CountedForIncreasing(setup, s.isOpen, Credit(Primary, false) in s.log);
    if s.queue != [] && s.queue[0] in credited {
      var i :| 0 <= i < |credited| && credited[i] == s.queue[0];
      assert counted[i] == s.queue[0] == counted[|credited|];
      NotEarlier(s.queue[0]);
    }
  }

  lemma NotEarlier(r: Request)
    ensures !Earlier(r, r)
  {
  }

  lemma AskedForStep(setup: Setup, s: State, e: Event)
    requires Inv(setup, s) && AskedFor(setup, s)
    ensures AskedFor(setup, Step(setup, s, e))
  {
    hide Step, Says, OpeningRequests, ReadyRules, EofRules, EnvInRange, RefusalsNamed, Increasing;
    var says := Says(setup, s, e);
    StepSays(setup, s, e);
    StepRemembers(setup, s, e);
    SaysCounted(setup, s, e);
    SaysMembers(setup, s, e);
    CountedAppend(s.log, says);
    InOrderNow(setup, s);
    CreditedIn(s.log, Primary);
    if s.queue != [] {
      CreditedIn(s.log, s.queue[0]);
    }
    if e.Opened? && !s.isOpen && setup.session {
      assert Credited(s.log) == [];
      assert OpeningRequests(setup) + [] == OpeningRequests(setup) == [] + OpeningRequests(setup);
    }
    assert Counted(s.log) + [] == Counted(s.log);
  }

  lemma {:induction false} RunsAskFor(setup: Setup, events: seq<Event>)
    ensures AskedFor(setup, Run(setup, events))
  {
    if events != [] {
      hide Step, Inv, AskedFor;
      var n := |events| - 1;
      RunsAskFor(setup, events[..n]);
      RunsAreSafe(setup, events[..n]);
      AskedForStep(setup, Run(setup, events[..n]), events[n]);
    }
  }

  /** What a session asks for once it is open. */
  predicate AsksFor(setup: Setup, r: Request, primaryRefused: bool) {
    match r
    case X11 => setup.x11
    case Agent => setup.agent
    case Pty => setup.pty
    case Env(j) => j < |setup.env|
    case Primary => !(setup.subsystem && !setup.canSubsystem)
    case Fallback => (setup.subsystem && !setup.canSubsystem) || (setup.hasFallback && primaryRefused)
  }

  /** Which requests a run counts, and in which order. */
  lemma CountedInWords(setup: Setup, events: seq<Event>)
    ensures var log := Run(setup, events).log;
      && Increasing(Counted(log))
      && forall r :: r in Counted(log) <==>
           Opened in events && setup.session && AsksFor(setup, r, Credit(Primary, false) in log)
  {
    hide Run, OpeningRequests, Increasing;
    var s := Run(setup, events);
    RunsAreSafe(setup, events);
    RunsAskFor(setup, events);
    InOrderNow(setup, s);
    OpeningInWords(setup);
  }

  // ----- the summary of the environment variables

  function Failed(setup: Setup, log: seq<Action>): set<nat> {
    set j: nat | j < |setup.env| && Credit(Env(j), false) in log
  }

  /** Every variable has had its one reply, and the summary is of those. */
  predicate SummaryIsRight(setup: Setup, log: seq<Action>, x: EnvSummary) {
    && (forall j: nat :: j < |setup.env| ==> (Credit(Env(j), true) in log <==> Credit(Env(j), false) !in log))
    && (x == AllSet <==> forall j: nat :: j < |setup.env| ==> Credit(Env(j), true) in log)
    && (x == AllRefused <==> forall j: nat :: j < |setup.env| ==> Credit(Env(j), false) in log)
  }

  predicate SummariesRight(setup: Setup, log: seq<Action>) {
    forall i :: 0 <= i < |log| && log[i].EnvDone? ==> SummaryIsRight(setup, log[..i], log[i].summary)
  }

  /** The last variable's reply is followed by the summary. */
  predicate SummaryFollows(setup: Setup, log: seq<Action>) {
    forall i :: 0 <= i < |log| ==> SummaryAt(setup, log, i)
  }

  ghost predicate OneReplyEach(log: seq<Action>) {
    forall j :: !(Credit(Env(j), true) in log && Credit(Env(j), false) in log)
  }

  predicate RefusalsCounted(setup: Setup, log: seq<Action>) {
    |Failed(setup, log)| == Refusals(log)
  }

  ghost predicate EnvTold(setup: Setup, log: seq<Action>) {
    RefusalsCounted(setup, log) && OneReplyEach(log) && SummariesRight(setup, log) && SummaryFollows(setup, log)
  }

  lemma SummariesAppend(setup: Setup, log: seq<Action>, more: seq<Action>)
    requires SummariesRight(setup, log) && forall a :: a in more ==> !a.EnvDone?
    ensures SummariesRight(setup, log + more)
  {
    hide SummaryIsRight;
    var t := log + more;
    forall i | |log| <= i < |t| ensures !t[i].EnvDone? {
      assert more[i - |log|] in more;
    }
    forall i | 0 <= i < |t| && t[i].EnvDone? ensures SummaryIsRight(setup, t[..i], t[i].summary) {
      assert t[..i] == log[..i];
    }
  }

  lemma SummariesDone(setup: Setup, log: seq<Action>, x: EnvSummary)
    requires SummariesRight(setup, log) && SummaryIsRight(setup, log, x)
    ensures SummariesRight(setup, log + [EnvDone(x)])
  {
    hide SummaryIsRight;
    var t := log + [EnvDone(x)];
    forall i | 0 <= i < |t| && t[i].EnvDone? ensures SummaryIsRight(setup, t[..i], t[i].summary) {
      assert t[..i] == log[..i];
      assert log[..|log|] == log;
    }
  }

  predicate SummaryAt(setup: Setup, log: seq<Action>, i: nat)
    requires i < |log|
  {
    log[i].Credit? && log[i].request.Env? && log[i].request.j + 1 == |setup.env| ==>
      var k := if log[i].success then i + 1 else i + 2;
      k < |log| && log[k].EnvDone?
  }

  lemma FollowsAppend(setup: Setup, log: seq<Action>, more: seq<Action>)
    requires SummaryFollows(setup, log) && SummaryFollows(setup, more)
    ensures SummaryFollows(setup, log + more)
  {
    var t := log + more;
    forall i | 0 <= i < |t| ensures SummaryAt(setup, t, i) {
      if i < |log| {
        assert SummaryAt(setup, log, i);
        assert t[i] == log[i] && (i + 1 < |log| ==> t[i + 1] == log[i + 1]) && (i + 2 < |log| ==> t[i + 2] == log[i + 2]);
      } else {
        var k := i - |log|;
        assert SummaryAt(setup, more, k);
        assert t[i] == more[k] && (k + 1 < |more| ==> t[i + 1] == more[k + 1]) && (k + 2 < |more| ==> t[i + 2] == more[k + 2]);
      }
    }
  }

  function UpTo(n: nat): (u: set<nat>)
    ensures |u| == n && forall j: nat :: j in u <==> j < n
  {
    if n == 0 then {} else UpTo(n - 1) + {n - 1}
  }

  lemma SizeIsAll(a: set<nat>, n: nat)
    requires forall j :: j in a ==> j < n
    ensures |a| <= n && (|a| == n <==> forall j: nat :: j < n ==> j in a)
    ensures |a| == 0 <==> forall j :: j !in a
  {
    var u := UpTo(n);
    assert u == a + (u - a);
    if forall j: nat :: j < n ==> j in a {
      assert a == u;
    }
    if a != {} {
      var j :| j in a;
    }
  }

  /** Nothing about variables is said by any other event than the reply to one. */
  lemma SaysNoEnv(setup: Setup, s: State, e: Event)
    requires !(e.Reply? && s.queue != [] && s.queue[0].Env?)
    ensures forall a :: a in Says(setup, s, e) ==>
      !a.EnvRefused? && !a.EnvDone? && !(a.Credit? && a.request.Env?)
  {
    hide OpeningRequests, EofIn, CanSendFallback;
    if e.Opened? && !s.isOpen && setup.session {
      OnlySends(setup, OpeningRequests(setup));
    }
  }

  lemma {:induction false} RefusalsAppend(log: seq<Action>, more: seq<Action>)
    requires forall a :: a in more ==> !a.EnvRefused?
    ensures Refusals(log + more) == Refusals(log)
  {
    if more == [] {
      assert log + more == log;
    } else {
      var n := |more| - 1;
      RefusalsAppend(log, more[..n]);
      assert (log + more)[..|log| + n] == log + more[..n];
    }
  }

  lemma OtherTold(setup: Setup, log: seq<Action>, more: seq<Action>)
    requires EnvTold(setup, log)
    requires forall a :: a in more ==> !a.EnvRefused? && !a.EnvDone? && !(a.Credit? && a.request.Env?)
    ensures EnvTold(setup, log + more)
  {
    hide SummariesRight;
    RefusalsAppend(log, more);
    assert Failed(setup, log + more) == Failed(setup, log);
    SummariesAppend(setup, log, more);
    forall i | 0 <= i < |more| ensures SummaryAt(setup, more, i) {
      assert more[i] in more;
    }
    FollowsAppend(setup, log, more);
  }

  lemma CountedEnvs(setup: Setup, s: State, j: nat)
    requires AskedFor(setup, s)
    ensures Env(j) in Counted(s.log) <==> s.isOpen && setup.session && j < |setup.env|
  {
    hide OpeningRequests;
    OpeningInWords(setup);
  }

  /** Another variable waits behind this one unless it is the last, and then all the
      others have been answered. */
  lemma LastVariable(setup: Setup, s: State)
    requires InOrder(s) && AskedFor(setup, s) && s.queue != [] && s.queue[0].Env?
    ensures s.queue[0].j < |setup.env|
    ensures |s.queue| > 1 && s.queue[1].Env? <==> s.queue[0].j + 1 < |setup.env|
    ensures s.queue[0].j + 1 == |setup.env| ==> forall i: nat :: i < s.queue[0].j ==> Env(i) in Credited(s.log)
  {
    hide AskedFor;
    var credited, counted, j := Credited(s.log), Counted(s.log), s.queue[0].j;
    InOrderNow(setup, s);
    assert Env(j) in s.queue && forall r :: r in s.queue ==> r in counted;
    CountedEnvs(setup, s, j);
    CountedEnvs(setup, s, j + 1);
    forall r | r in credited ensures Earlier(r, Env(j)) {
      var q :| 0 <= q < |credited| && credited[q] == r;
      assert counted[q] == r && counted[|credited|] == Env(j);
    }
    assert !Earlier(Env(j + 1), Env(j));
    forall i: nat | i < |setup.env| && i != j && Env(i) !in credited ensures i > j && |s.queue| > 1 && s.queue[1].Env? {
      CountedEnvs(setup, s, i);
      var p :| 0 <= p < |s.queue| && s.queue[p] == Env(i);
      var m := |credited|;
      assert counted[m + p] == Env(i) && counted[m] == Env(j) && counted[m + 1] == s.queue[1];
      assert Earlier(counted[m], counted[m + 1]) && (p > 1 ==> Earlier(counted[m + 1], counted[m + p]));
    }
    if |s.queue| > 1 && s.queue[1].Env? {
      var m := |credited|;
      assert counted[m] == Env(j) && counted[m + 1] == s.queue[1];
      assert Earlier(counted[m], counted[m + 1]);
      assert s.queue[1] in s.queue;
      CountedEnvs(setup, s, s.queue[1].j);
    }
  }

  /** Taking a variable's reply into account. */
  lemma ReplyTold(setup: Setup, log: seq<Action>, j: nat, ok: bool)
    requires j < |setup.env| && EnvTold(setup, log)
    requires Credit(Env(j), true) !in log && Credit(Env(j), false) !in log
    ensures var more := [Credit(Env(j), ok)] + if ok then [] else [EnvRefused(setup.env[j])];
      RefusalsCounted(setup, log + more) && OneReplyEach(log + more) && SummariesRight(setup, log + more)
  {
    hide SummariesRight, OneReplyEach, SummaryFollows, RefusalsCounted;
    var c := Credit(Env(j), ok);
    var refusal := if ok then [] else [EnvRefused(setup.env[j])];
    ReplyCounted(setup, log, j, ok, refusal);
    ReplyOnce(log, j, ok, refusal);
    SummariesAppend(setup, log, [c] + refusal);
  }

  lemma ReplyCounted(setup: Setup, log: seq<Action>, j: nat, ok: bool, refusal: seq<Action>)
    requires j < |setup.env| && RefusalsCounted(setup, log) && Credit(Env(j), false) !in log
    requires refusal == if ok then [] else [EnvRefused(setup.env[j])]
    ensures RefusalsCounted(setup, log + ([Credit(Env(j), ok)] + refusal))
  {
    var c := Credit(Env(j), ok);
    RefusalsThen(log, c, refusal);
    assert log + ([c] + refusal) == log + [c] + refusal;
    assert Failed(setup, log + ([c] + refusal)) == Failed(setup, log) + if ok then {} else {j};
  }

  lemma ReplyOnce(log: seq<Action>, j: nat, ok: bool, refusal: seq<Action>)
    requires OneReplyEach(log) && Credit(Env(j), true) !in log && Credit(Env(j), false) !in log
    requires forall a :: a in refusal ==> a.EnvRefused?
    ensures OneReplyEach(log + ([Credit(Env(j), ok)] + refusal))
  {
  }

  /** With every variable answered once, counting the refusals tells how many. */
  lemma SummaryTold(setup: Setup, log: seq<Action>)
    requires RefusalsCounted(setup, log) && setup.env != []
    requires forall j: nat :: j < |setup.env| ==> (Credit(Env(j), true) in log <==> Credit(Env(j), false) !in log)
    ensures SummaryIsRight(setup, log, Summary(Refusals(log), |setup.env|))
  {
    var f, n := Failed(setup, log), |setup.env|;
    SizeIsAll(f, n);
    assert forall j: nat :: j < n ==> (j in f <==> Credit(Env(j), false) in log);
    assert 0 < n && (0 in f || 0 !in f);
    if |f| == 0 {
      assert forall j: nat :: j < n ==> j !in f;
      assert Credit(Env(0), true) in log;
    } else {
      var k :| k in f;
      assert Credit(Env(k), true) !in log;
      if |f| < n {
        var m: nat :| m < n && m !in f;
        assert Credit(Env(m), false) !in log;
      }
    }
  }

  lemma EveryReply(setup: Setup, s: State, ok: bool)
    requires InOrder(s) && AskedFor(setup, s) && OneReplyEach(s.log) && s.queue != [] && s.queue[0].Env?
    requires s.queue[0].j + 1 == |setup.env|
    ensures var log := s.log + ([Credit(s.queue[0], ok)] + if ok then [] else [EnvRefused(setup.env[s.queue[0].j])]);
      forall i: nat :: i < |setup.env| ==> (Credit(Env(i), true) in log <==> Credit(Env(i), false) !in log)
  {
    hide AskedFor, InOrder;
    LastVariable(setup, s);
    InOrderNow(setup, s);
    forall i: nat ensures Env(i) in Credited(s.log) <==> Credit(Env(i), true) in s.log || Credit(Env(i), false) in s.log {
      CreditedIn(s.log, Env(i));
    }
  }

  lemma ChunkFollows(setup: Setup, j: nat, ok: bool, x: EnvSummary)
    requires j < |setup.env|
    ensures var refusal := if ok then [] else [EnvRefused(setup.env[j])];
      var done := if j + 1 < |setup.env| then [] else [EnvDone(x)];
      SummaryFollows(setup, [Credit(Env(j), ok)] + (refusal + done))
  {
  }

  lemma EnvToldReply(setup: Setup, s: State, ok: bool)
    requires InOrder(s) && AskedFor(setup, s) && EnvTold(setup, s.log) && s.queue != [] && s.queue[0].Env?
    ensures EnvTold(setup, s.log + AnswerSays(setup, s, ok))
  {
    hide *;
    var j := s.queue[0].j;
    LastVariable(setup, s);
    InOrderNow(setup, s);
    CreditedIn(s.log, s.queue[0]);
    ReplyTold(setup, s.log, j, ok);
    var c, refusal := Credit(Env(j), ok), if ok then [] else [EnvRefused(setup.env[j])];
    RefusalsThen(s.log, c, refusal);
    var x := Summary(Refusals(s.log) + |refusal|, |setup.env|);
    var done := if j + 1 < |setup.env| then [] else [EnvDone(x)];
    EnvSaysAre(setup, s, ok, refusal, done);
    ChunkFollows(setup, j, ok, x);
    assert [c] + (refusal + done) == [c] + refusal + done;
    ToldMeans(setup, s.log);
    if done != [] {
      EveryReply(setup, s, ok);
      SummaryNow(setup, s.log, c, refusal, x);
    }
    EnvToldAll(setup, s.log, [c] + refusal, done);
  }

  lemma ToldMeans(setup: Setup, log: seq<Action>)
    requires EnvTold(setup, log)
    ensures OneReplyEach(log)
  {
  }

  lemma SummaryNow(setup: Setup, log: seq<Action>, c: Action, refusal: seq<Action>, x: EnvSummary)
    requires c.Credit? && (refusal == [] || (|refusal| == 1 && refusal[0].EnvRefused?)) && setup.env != []
    requires RefusalsCounted(setup, log + ([c] + refusal))
    requires var log1 := log + ([c] + refusal);
      forall i: nat :: i < |setup.env| ==> (Credit(Env(i), true) in log1 <==> Credit(Env(i), false) !in log1)
    requires x == Summary(Refusals(log) + |refusal|, |setup.env|)
    ensures SummaryIsRight(setup, log + ([c] + refusal), x)
  {
    hide SummaryIsRight, RefusalsCounted, Summary;
    RefusalsThen(log, c, refusal);
    assert log + ([c] + refusal) == log + [c] + refusal;
    SummaryTold(setup, log + ([c] + refusal));
  }

  lemma EnvToldAll(setup: Setup, log: seq<Action>, more: seq<Action>, done: seq<Action>)
    requires EnvTold(setup, log) && RefusalsCounted(setup, log + more) && OneReplyEach(log + more)
    requires SummariesRight(setup, log + more) && SummaryFollows(setup, more + done)
    requires done == [] || (|done| == 1 && done[0].EnvDone? && SummaryIsRight(setup, log + more, done[0].summary))
    ensures EnvTold(setup, log + (more + done))
  {
    hide SummariesRight, SummaryFollows, SummaryIsRight, RefusalsCounted, OneReplyEach;
    FollowsAppend(setup, log, more + done);
    if done == [] {
      assert more + [] == more;
    } else {
      SummariesDone(setup, log + more, done[0].summary);
      DoneTold(setup, log + more, done[0].summary);
      assert log + (more + done) == log + more + [EnvDone(done[0].summary)];
    }
  }

  lemma DoneTold(setup: Setup, log: seq<Action>, x: EnvSummary)
    requires RefusalsCounted(setup, log) && OneReplyEach(log)
    ensures RefusalsCounted(setup, log + [EnvDone(x)]) && OneReplyEach(log + [EnvDone(x)])
  {
    Appended(log, EnvDone(x));
    assert Failed(setup, log + [EnvDone(x)]) == Failed(setup, log);
  }

  /** Over whole runs: the summary comes right after the last variable's reply, says
      what the replies were, and comes at no other time. */
  lemma {:induction false} SummariesInWords(setup: Setup, events: seq<Event>)
    ensures EnvTold(setup, Run(setup, events).log)
  {
    if events != [] {
      hide Step, Says, AnswerSays, EnvTold, ReadyRules, EofRules, EnvInRange, RefusalsNamed, InOrder, AskedFor;
      var n := |events| - 1;
      var s := Run(setup, events[..n]);
      var e := events[n];
      SummariesInWords(setup, events[..n]);
      RunsAreSafe(setup, events[..n]);
      RunsAskFor(setup, events[..n]);
      StepSays(setup, s, e);
      if e.Reply? && s.queue != [] && s.queue[0].Env? {
        EnvToldReply(setup, s, e.success);
        ReplySays(setup, s, e.success);
      } else {
        SaysNoEnv(setup, s, e);
        OtherTold(setup, s.log, Says(setup, s, e));
      }
    } else {
      NothingTold(setup);
    }
  }

  lemma ReplySays(setup: Setup, s: State, ok: bool)
    requires s.queue != []
    ensures Says(setup, s, Reply(ok)) == AnswerSays(setup, s, ok)
  {
  }

  lemma NothingTold(setup: Setup)
    ensures EnvTold(setup, [])
  {
    assert Failed(setup, []) == {};
  }
}
