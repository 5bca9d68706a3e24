/**
 Agent forwarding over a channel (agentf.c).

 The remote side sends length-prefixed requests in arbitrary chunks; they are
 put to the real agent one at a time.  The agent is an arbitrary function of the
 query number and the message that either answers at once or promises to.
 */
module AgentForwarding {
  import opened Marshal
  import opened MpInts
  import opened Options

  datatype Answer = Later | Now(reply: Option<seq<byte>>)

  type Agent = (nat, seq<byte>) -> Answer

  datatype Output = Query(message: seq<byte>) | Write(data: seq<byte>) | WriteEof

  const AGENT_MAX_MSGLEN := 262144

  /** The fake SSH_AGENT_FAILURE. */
  const FAILURE: seq<byte> := [0, 0, 0, 1, 5]

  function ReplyBytes(reply: Option<seq<byte>>): seq<byte> {
    if reply.Some? then reply.value else FAILURE
  }

  // ----- framing

  function Length(s: seq<byte>): nat
    requires |s| >= 4
  {
    FromU32(s[..4])
  }

  /** The input starts with a request too long to accept. */
  predicate Overlong(s: seq<byte>) {
    |s| >= 4 && Length(s) > AGENT_MAX_MSGLEN - 4
  }

  /** The input starts with a whole acceptable request. */
  predicate Complete(s: seq<byte>) {
    |s| >= 4 && Length(s) <= AGENT_MAX_MSGLEN - 4 && Length(s) <= |s| - 4
  }

  function Head(s: seq<byte>): seq<byte>
    requires Complete(s)
  {
    s[4..4 + Length(s)]
  }

  function Tail(s: seq<byte>): seq<byte>
    requires Complete(s)
  {
    s[4 + Length(s)..]
  }

  /** All the acceptable requests a stream starts with. */
  function Frames(s: seq<byte>): seq<seq<byte>>
    decreases |s|
  {
    if Complete(s) then [Head(s)] + Frames(Tail(s)) else []
  }

  /** Requests as they are sent. */
  function Encode(ms: seq<seq<byte>>): seq<byte> {
    if ms == [] then [] else Encode(ms[..|ms| - 1]) + StringBytes(ms[|ms| - 1])
  }

  predicate Acceptable(ms: seq<seq<byte>>) {
    forall m :: m in ms ==> |m| <= AGENT_MAX_MSGLEN - 4
  }

  // ----- the reference: serve whole requests in order

  /** How many of the waiting requests are put to the agent: up to and including
      the first that it does not answer at once. */
  function Taken(agent: Agent, n: nat, ms: seq<seq<byte>>): (k: nat)
    ensures k <= |ms|
    decreases |ms|
  {
    if ms == [] then 0
    else if agent(n, ms[0]).Later? then 1
    else 1 + Taken(agent, n + 1, ms[1..])
  }

  predicate Waits(agent: Agent, n: nat, ms: seq<seq<byte>>)
    decreases |ms|
  {
    ms != [] && (agent(n, ms[0]).Later? || Waits(agent, n + 1, ms[1..]))
  }

  function Served(agent: Agent, n: nat, ms: seq<seq<byte>>): seq<Output>
    decreases |ms|
  {
    if ms == [] then []
    else
      match agent(n, ms[0])
      case Later => [Query(ms[0])]
      case Now(reply) => [Query(ms[0]), Write(ReplyBytes(reply))] + Served(agent, n + 1, ms[1..])
  }

  /** What is said when the input holds no further acceptable request. */
  function Closing(inbuffer: seq<byte>, rcvdEof: bool): seq<Output> {
    if Overlong(inbuffer) then [Write(FAILURE), WriteEof] else if rcvdEof then [WriteEof] else []
  }

  datatype State = State(inbuffer: seq<byte>, pending: bool, wanted: bool, rcvdEof: bool, out: seq<Output>)

  function Queries(out: seq<Output>): seq<seq<byte>> {
    if out == [] then []
    else
      var o := out[|out| - 1];
      Queries(out[..|out| - 1]) + if o.Query? then [o.message] else []
  }

  /** Drop the first k requests. */
  function Skip(s: seq<byte>, k: nat): seq<byte>
    decreases k
  {
    if k > 0 && Complete(s) then Skip(Tail(s), k - 1) else s
  }

  function Forward(agent: Agent, s: State): State {
    if s.pending || !s.wanted then s
    else
      var n, ms := |Queries(s.out)|, Frames(s.inbuffer);
      var rest := Skip(s.inbuffer, Taken(agent, n, ms));
      var waits := Waits(agent, n, ms);
      s.(inbuffer := rest, pending := waits,
         out := s.out + Served(agent, n, ms) + if waits then [] else Closing(rest, s.rcvdEof))
  }

  datatype Event = Data(data: seq<byte>) | RemoteEof | Wanted(wanted: bool) | AgentReply(reply: Option<seq<byte>>)

  function Step(agent: Agent, s: State, e: Event): State {
    match e
    case Data(data) => Forward(agent, s.(inbuffer := s.inbuffer + data))
    case RemoteEof => Forward(agent, s.(rcvdEof := true))
    case Wanted(w) => if w then Forward(agent, s.(wanted := true)) else s.(wanted := false)
    case AgentReply(reply) =>
      if s.pending then Forward(agent, s.(pending := false, out := s.out + [Write(ReplyBytes(reply))])) else s
  }

  const START := State([], false, true, false, [])

  function Run(agent: Agent, events: seq<Event>): State {
    if events == [] then START
    else Step(agent, Run(agent, events[..|events| - 1]), events[|events| - 1])
  }

  function Received(events: seq<Event>): seq<byte> {
    if events == [] then []
    else
      var e := events[|events| - 1];
      Received(events[..|events| - 1]) + if e.Data? then e.data else []
  }

  // ----- the channel

  class AgentChannel {
    const agent: Agent
    var inbuffer: seq<byte>
    var pending: bool
    var inputWanted: bool
    var rcvdEof: bool
    var out: seq<Output>

    function Value(): State
      reads this
    {
      State(inbuffer, pending, inputWanted, rcvdEof, out)
    }

    constructor (agent: Agent)
      ensures this.agent == agent && Value() == START
    {
      this.agent := agent;
      inbuffer, pending, inputWanted, rcvdEof, out := [], false, true, false, [];
    }

    /** agentf_got_response. */
    method GotResponse(reply: Option<seq<byte>>)
      modifies this`pending, this`out
      ensures !pending && out == old(out) + [Write(ReplyBytes(reply))]
    {
      pending := false;
      var data := FAILURE;
      if reply.Some? {
        data := reply.value;
      }
      out := out + [Write(data)];
    }

    /** agentf_try_forward. */
    method TryForward()
      modifies this
      ensures Value() == Forward(agent, old(Value()))
    {
      if pending {
        return;
      }
      if !inputWanted {
        return;
      }
      hide Forward, FromU32, Queries;
      while true
        invariant !pending && inputWanted && rcvdEof == old(rcvdEof)
        invariant Forward(agent, Value()) == Forward(agent, old(Value()))
        decreases |inbuffer|
      {
        var datalen := |inbuffer|;
        if datalen < 4 {
          TurnShort(agent, Value());
          break;
        }
        var length := FromU32(inbuffer[..4]);
        if length > AGENT_MAX_MSGLEN - 4 {
          TurnOverlong(agent, Value());
          GotResponse(None);
          out := out + [WriteEof];
          return;
        }
        if length > datalen - 4 {
          TurnShort(agent, Value());
          break;
        }
        TurnHead(agent, Value(), length);
        inbuffer := inbuffer[4..];
        var message := inbuffer[..length];
        inbuffer := inbuffer[length..];
        var answer := agent(|Queries(out)|, message);
        out := out + [Query(message)];
        if answer.Later? {
          pending := true;
          return;
        }
        GotResponse(answer.reply);
      }
      if rcvdEof {
        out := out + [WriteEof];
      }
    }

    /** agentf_callback: the promised reply arrives. */
    method Callback(reply: Option<seq<byte>>)
      requires pending
      modifies this
      ensures Value() == Step(agent, old(Value()), AgentReply(reply))
    {
      hide Forward;
      GotResponse(reply);
      TryForward();
    }

    /** agentf_send, with the backlog it reports. */
    method Send(data: seq<byte>) returns (backlog: nat)
      modifies this
      ensures Value() == Step(agent, old(Value()), Data(data))
      ensures backlog == if pending then |inbuffer| else 0
    {
      hide Forward;
      inbuffer := inbuffer + data;
      TryForward();
      backlog := if pending then |inbuffer| else 0;
    }

    /** agentf_send_eof. */
    method SendEof()
      modifies this
      ensures Value() == Step(agent, old(Value()), RemoteEof)
    {
      hide Forward;
      rcvdEof := true;
      TryForward();
    }

    /** agentf_set_input_wanted. */
    method SetInputWanted(wanted: bool)
      modifies this
      ensures Value() == Step(agent, old(Value()), Wanted(wanted))
    {
      hide Forward;
      inputWanted := wanted;
      if wanted {
        TryForward();
      }
    }
  }

  lemma QueriesAppend(out: seq<Output>, o: Output)
    ensures Queries(out + [o]) == Queries(out) + if o.Query? then [o.message] else []
  {
    assert (out + [o])[..|out|] == out;
  }

  lemma TakesNothing(agent: Agent, s: State)
    requires !s.pending && s.wanted && !Complete(s.inbuffer)
    ensures Forward(agent, s) == s.(out := s.out + Closing(s.inbuffer, s.rcvdEof))
  {
    assert s.out + [] == s.out;
  }

  /** One turn of the loop. */
  lemma TakesHead(agent: Agent, s: State)
    requires !s.pending && s.wanted && Complete(s.inbuffer)
    ensures var m := Head(s.inbuffer);
      var t := s.(inbuffer := Tail(s.inbuffer), out := s.out + [Query(m)]);
      match agent(|Queries(s.out)|, m)
      case Later => Forward(agent, s) == t.(pending := true)
      case Now(reply) => Forward(agent, s) == Forward(agent, t.(out := t.out + [Write(ReplyBytes(reply))]))
  {
    var n, m := |Queries(s.out)|, Head(s.inbuffer);
    var rest := Frames(Tail(s.inbuffer));
    assert Frames(s.inbuffer) == [m] + rest;
    SkipHead(s.inbuffer, Taken(agent, n + 1, rest));
    hide Complete, Head, Tail, Closing, ReplyBytes, Frames, Skip, Served, Taken, Waits;
    match agent(n, m)
    case Later =>
      ServeLater(agent, n, m, rest);
      SkipNone(Tail(s.inbuffer));
      SkipHead(s.inbuffer, 0);
    case Now(reply) =>
      var w := Write(ReplyBytes(reply));
      ServeNow(agent, n, m, rest, s.out);
      QueriesAppend(s.out, Query(m));
      QueriesAppend(s.out + [Query(m)], w);
  }

  lemma SkipHead(s: seq<byte>, k: nat)
    requires Complete(s)
    ensures Skip(s, k + 1) == Skip(Tail(s), k)
  {
  }

  lemma SkipNone(s: seq<byte>)
    ensures Skip(s, 0) == s
  {
  }

  lemma ServeLater(agent: Agent, n: nat, m: seq<byte>, rest: seq<seq<byte>>)
    requires agent(n, m).Later?
    ensures Taken(agent, n, [m] + rest) == 1 && Waits(agent, n, [m] + rest)
    ensures Served(agent, n, [m] + rest) == [Query(m)]
  {
  }

  lemma ServeNow(agent: Agent, n: nat, m: seq<byte>, rest: seq<seq<byte>>, out: seq<Output>)
    requires agent(n, m).Now?
    ensures Taken(agent, n, [m] + rest) == Taken(agent, n + 1, rest) + 1
    ensures Waits(agent, n, [m] + rest) == Waits(agent, n + 1, rest)
    ensures out + Served(agent, n, [m] + rest)
         == out + [Query(m)] + [Write(ReplyBytes(agent(n, m).reply))] + Served(agent, n + 1, rest)
  {
    assert ([m] + rest)[1..] == rest;
  }

  /** The two lemmas above, by the tests the loop makes: too few bytes, */
  lemma TurnShort(agent: Agent, s: State)
    requires !s.pending && s.wanted
    requires |s.inbuffer| < 4
      || (FromU32(s.inbuffer[..4]) <= AGENT_MAX_MSGLEN - 4 && FromU32(s.inbuffer[..4]) > |s.inbuffer| - 4)
    ensures Forward(agent, s) == s.(out := if s.rcvdEof then s.out + [WriteEof] else s.out)
  {
    hide Forward, FromU32;
    TakesNothing(agent, s);
    assert s.out + [] == s.out;
  }

  /** a request that is too long, */
  lemma TurnOverlong(agent: Agent, s: State)
    requires !s.pending && s.wanted && |s.inbuffer| >= 4 && FromU32(s.inbuffer[..4]) > AGENT_MAX_MSGLEN - 4
    ensures Forward(agent, s) == s.(out := s.out + [Write(FAILURE)] + [WriteEof])
  {
    hide Forward, FromU32;
    TakesNothing(agent, s);
    assert s.out + [Write(FAILURE), WriteEof] == s.out + [Write(FAILURE)] + [WriteEof];
  }

  /** and a whole one. */
  lemma TurnHead(agent: Agent, s: State, length: nat)
    requires !s.pending && s.wanted && |s.inbuffer| >= 4 && FromU32(s.inbuffer[..4]) == length
    requires length <= AGENT_MAX_MSGLEN - 4 && length <= |s.inbuffer| - 4
    ensures var m := s.inbuffer[4..][..length];
      var t := s.(inbuffer := s.inbuffer[4..][length..], out := s.out + [Query(m)]);
      match agent(|Queries(s.out)|, m)
      case Later => Forward(agent, s) == t.(pending := true)
      case Now(reply) => Forward(agent, s) == Forward(agent, t.(out := t.out + [Write(ReplyBytes(reply))]))
  {
    hide Forward, FromU32, Queries;
    SliceOfRest(s.inbuffer, 4, length);
    TakesHead(agent, s);
  }

  // ----- framing is undone exactly

  lemma TakeFrame(m: seq<byte>, rest: seq<byte>)
    requires |m| <= AGENT_MAX_MSGLEN - 4
    ensures Frames(StringBytes(m) + rest) == [m] + Frames(rest)
  {
    var s := StringBytes(m) + rest;
    U32RoundTrip(|m|);
    assert s[..4] == U32(|m|);
    assert Head(s) == m && Tail(s) == rest;
  }

  lemma {:induction false} FramesOfEncoded(ms: seq<seq<byte>>, rest: seq<byte>)
    requires Acceptable(ms)
    ensures Frames(Encode(ms) + rest) == ms + Frames(rest)
  {
    hide StringBytes, Complete;
    if ms == [] {
      assert [] + rest == rest;
    } else {
      var n := |ms| - 1;
      Assoc(Encode(ms[..n]), StringBytes(ms[n]), rest);
      FramesOfEncoded(ms[..n], StringBytes(ms[n]) + rest);
      TakeFrame(ms[n], rest);
      assert ms == ms[..n] + [ms[n]];
    }
  }

  lemma HeadIsFrame(s: seq<byte>)
    requires Complete(s)
    ensures s == StringBytes(Head(s)) + Tail(s)
  {
    FromU32Inverse(s[..4]);
  }

  /** A request is four bytes of length, most significant first, and as many bytes; it
      is too long from 262141 on. */
  lemma FramingInWords(s: seq<byte>)
    ensures Overlong(s) <==> |s| >= 4 && BigEndian(s[..4]) > 262140
    ensures Complete(s) <==> |s| >= 4 && BigEndian(s[..4]) <= 262140 && 4 + BigEndian(s[..4]) <= |s|
    ensures Complete(s) ==> Head(s) == s[4..4 + BigEndian(s[..4])] && Tail(s) == s[4 + BigEndian(s[..4])..]
  {
    hide FromU32, BigEndian;
    if |s| >= 4 {
      WordsAreBigEndian(0, s[..4]);
    }
  }

  lemma LastDigit(v: int, q: int, d: int)
    requires 0 <= d < 256 && v == q * 256 + d
    ensures v / 256 == q && v % 256 == d
  {
  }

  lemma FromU32Inverse(w: seq<byte>)
    requires |w| == 4
    ensures U32(FromU32(w)) == w
  {
    var a: int, b: int, c: int, d: int := w[0], w[1], w[2], w[3];
    var v: int := FromU32(w);
    var v1 := a * 0x1_0000 + b * 256 + c;
    var v2 := a * 256 + b;
    LastDigit(v, v1, d);
    LastDigit(v1, v2, c);
    LastDigit(v2, a, b);
    DivideAgain(v);
    assert v % TWO32 == v;
  }

  lemma DivideAgain(v: int)
    ensures v / 0x1_0000 == v / 256 / 256 && v / 0x100_0000 == v / 256 / 256 / 256
  {
  }

  // ----- what every run keeps

  datatype Phase = Idle | Waiting | Rejecting | Broken

  /** The discipline of the output: a query is followed by its one reply before
      anything else happens, a reply to nothing is the failure that announces a
      rejection, and EOF is said only with no query pending. */
  function PhaseOf(out: seq<Output>): Phase {
    if out == [] then Idle else After(PhaseOf(out[..|out| - 1]), out[|out| - 1])
  }

  function After(p: Phase, o: Output): Phase {
    match o
    case Query(_) => if p == Idle then Waiting else Broken
    case Write(data) =>
      if p == Waiting then Idle else if p == Idle && data == FAILURE then Rejecting else Broken
    case WriteEof => if p == Idle || p == Rejecting then Idle else Broken
  }

  /** A query that the agent answers at once is followed by that answer. */
  predicate AnsweredAtOnce(agent: Agent, out: seq<Output>) {
    forall i :: 0 <= i < |out| && out[i].Query? ==> AnsweredAt(agent, out, i)
  }

  predicate AnsweredAt(agent: Agent, out: seq<Output>, i: nat)
    requires i < |out| && out[i].Query?
  {
    match agent(|Queries(out[..i])|, out[i].message)
    case Later => true
    case Now(reply) => i + 1 < |out| && out[i + 1] == Write(ReplyBytes(reply))
  }

  predicate Inv(agent: Agent, s: State, received: seq<byte>) {
    && Accounted(Queries(s.out), s.inbuffer, received)
    && Said(agent, s.out, Queries(s.out), if s.pending then Waiting else Idle, Eofs(s.out))
  }

  /** The requests already forwarded, framed again, and the bytes still waiting
      are the bytes received. */
  predicate Accounted(qs: seq<seq<byte>>, inbuffer: seq<byte>, received: seq<byte>) {
    Encode(qs) + inbuffer == received && Acceptable(qs)
  }

  predicate Said(agent: Agent, out: seq<Output>, qs: seq<seq<byte>>, phase: Phase, eofs: nat) {
    Queries(out) == qs && PhaseOf(out) == phase && Eofs(out) == eofs && AnsweredAtOnce(agent, out)
  }

  function Eofs(out: seq<Output>): nat {
    if out == [] then 0
    else Eofs(out[..|out| - 1]) + if out[|out| - 1] == WriteEof then 1 else 0
  }

  predicate Finished(s: State) {
    !s.pending && s.wanted && (Overlong(s.inbuffer) || s.rcvdEof)
  }

  lemma OutAppend(out: seq<Output>, o: Output)
    ensures PhaseOf(out + [o]) == After(PhaseOf(out), o)
    ensures Eofs(out + [o]) == Eofs(out) + if o == WriteEof then 1 else 0
  {
    assert (out + [o])[..|out|] == out;
  }

  lemma AnsweredAppend(agent: Agent, out: seq<Output>, o: Output)
    requires AnsweredAtOnce(agent, out) && !o.Query?
    ensures AnsweredAtOnce(agent, out + [o])
  {
    var t := out + [o];
    forall i | 0 <= i < |t| && t[i].Query? ensures AnsweredAt(agent, t, i) {
      AnsweredStill(agent, out, [o], i);
    }
  }

  lemma AnsweredStill(agent: Agent, out: seq<Output>, more: seq<Output>, i: nat)
    requires i < |out| && out[i].Query? && AnsweredAt(agent, out, i)
    ensures AnsweredAt(agent, out + more, i)
  {
    assert (out + more)[..i] == out[..i];
  }

  lemma AnsweredQuery(agent: Agent, out: seq<Output>, m: seq<byte>, next: seq<Output>)
    requires AnsweredAtOnce(agent, out)
    requires match agent(|Queries(out)|, m)
      case Later => next == []
      case Now(reply) => next == [Write(ReplyBytes(reply))]
    ensures AnsweredAtOnce(agent, out + [Query(m)] + next)
  {
    hide ReplyBytes;
    var t := out + [Query(m)] + next;
    assert t[..|out|] == out && t == out + ([Query(m)] + next);
    forall i | 0 <= i < |t| && t[i].Query? ensures AnsweredAt(agent, t, i) {
      if i < |out| {
        AnsweredStill(agent, out, [Query(m)] + next, i);
      }
    }
  }

  lemma Say(agent: Agent, out: seq<Output>, qs: seq<seq<byte>>, p: Phase, eofs: nat, o: Output)
    requires Said(agent, out, qs, p, eofs) && !o.Query?
    ensures Said(agent, out + [o], qs, After(p, o), eofs + if o == WriteEof then 1 else 0)
  {
    hide AnsweredAtOnce;
    OutAppend(out, o);
    QueriesAppend(out, o);
    AnsweredAppend(agent, out, o);
  }

  lemma Ask(agent: Agent, out: seq<Output>, qs: seq<seq<byte>>, m: seq<byte>, eofs: nat)
    requires Said(agent, out, qs, Idle, eofs)
    ensures match agent(|qs|, m)
      case Later => Said(agent, out + [Query(m)], qs + [m], Waiting, eofs)
      case Now(reply) => Said(agent, out + [Query(m)] + [Write(ReplyBytes(reply))], qs + [m], Idle, eofs)
  {
    hide AnsweredAtOnce, ReplyBytes;
    OutAppend(out, Query(m));
    QueriesAppend(out, Query(m));
    match agent(|qs|, m)
    case Later =>
      AnsweredQuery(agent, out, m, []);
      assert out + [Query(m)] + [] == out + [Query(m)];
    case Now(reply) =>
      var w := Write(ReplyBytes(reply));
      AnsweredQuery(agent, out, m, [w]);
      QueriesAppend(out + [Query(m)], w);
      OutAppend(out + [Query(m)], w);
  }

  lemma SaidMeans(agent: Agent, out: seq<Output>, qs: seq<seq<byte>>, p: Phase, eofs: nat)
    requires Said(agent, out, qs, p, eofs)
    ensures Queries(out) == qs && Eofs(out) == eofs
  {
  }

  lemma ClosingKeeps(agent: Agent, s: State, received: seq<byte>)
    requires Inv(agent, s, received) && !s.pending
    ensures var t := s.(out := s.out + Closing(s.inbuffer, s.rcvdEof));
      Inv(agent, t, received)
      && Eofs(t.out) == Eofs(s.out) + if Overlong(s.inbuffer) || s.rcvdEof then 1 else 0
  {
    hide Accounted, Said, Overlong;
    var f := Write(FAILURE);
    var qs, e := Queries(s.out), Eofs(s.out);
    if Overlong(s.inbuffer) {
      Say(agent, s.out, qs, Idle, e, f);
      Say(agent, s.out + [f], qs, Rejecting, e, WriteEof);
      assert s.out + [f, WriteEof] == s.out + [f] + [WriteEof];
      SaidMeans(agent, s.out + [f] + [WriteEof], qs, Idle, e + 1);
    } else if s.rcvdEof {
      Say(agent, s.out, qs, Idle, e, WriteEof);
      SaidMeans(agent, s.out + [WriteEof], qs, Idle, e + 1);
    } else {
      assert s.out + [] == s.out;
    }
  }

  lemma HeadAccounted(s: seq<byte>, qs: seq<seq<byte>>, received: seq<byte>)
    requires Complete(s) && Accounted(qs, s, received)
    ensures Accounted(qs + [Head(s)], Tail(s), received)
  {
    HeadIsFrame(s);
    var m := Head(s);
    assert |m| <= AGENT_MAX_MSGLEN - 4;
    hide Complete, Head, Tail, StringBytes;
    EncodeAppend(qs, m);
    Assoc(Encode(qs), StringBytes(m), Tail(s));
  }

  lemma HeadKeeps(agent: Agent, s: State, received: seq<byte>)
    requires Inv(agent, s, received) && !s.pending && Complete(s.inbuffer)
    ensures var m := Head(s.inbuffer);
      var t := s.(inbuffer := Tail(s.inbuffer), out := s.out + [Query(m)]);
      match agent(|Queries(s.out)|, m)
      case Later => Inv(agent, t.(pending := true), received) && Eofs(t.out) == Eofs(s.out)
      case Now(reply) =>
        var t1 := t.(out := t.out + [Write(ReplyBytes(reply))]);
        Inv(agent, t1, received) && Eofs(t1.out) == Eofs(s.out)
  {
    hide Accounted, Said, Complete, Head, Tail, ReplyBytes;
    var m := Head(s.inbuffer);
    var qs, e := Queries(s.out), Eofs(s.out);
    HeadAccounted(s.inbuffer, qs, received);
    Ask(agent, s.out, qs, m, e);
    match agent(|qs|, m)
    case Later =>
      SaidMeans(agent, s.out + [Query(m)], qs + [m], Waiting, e);
    case Now(reply) =>
      SaidMeans(agent, s.out + [Query(m)] + [Write(ReplyBytes(reply))], qs + [m], Idle, e);
  }

  lemma EncodeAppend(ms: seq<seq<byte>>, m: seq<byte>)
    ensures Encode(ms + [m]) == Encode(ms) + StringBytes(m)
  {
    assert (ms + [m])[..|ms|] == ms;
  }

  /** Forwarding keeps the invariant, leaves no request that could be served, and
      says EOF exactly when the channel is finished. */
  lemma {:induction false} ForwardKeeps(agent: Agent, s: State, received: seq<byte>)
    requires Inv(agent, s, received)
    ensures var t := Forward(agent, s);
      && Inv(agent, t, received)
      && (t.pending || !t.wanted || !Complete(t.inbuffer))
      && t.wanted == s.wanted && t.rcvdEof == s.rcvdEof
      && Eofs(t.out) == Eofs(s.out) + if Finished(t) then 1 else 0
    decreases |s.inbuffer|
  {
    hide Inv, Eofs, Frames, Overlong;
    if !s.pending && s.wanted {
      if Complete(s.inbuffer) {
        TakesHead(agent, s);
        HeadKeeps(agent, s, received);
        var m := Head(s.inbuffer);
        var t := s.(inbuffer := Tail(s.inbuffer), out := s.out + [Query(m)]);
        match agent(|Queries(s.out)|, m)
        case Later =>
        case Now(reply) =>
          ForwardKeeps(agent, t.(out := t.out + [Write(ReplyBytes(reply))]), received);
      } else {
        TakesNothing(agent, s);
        ClosingKeeps(agent, s, received);
      }
    }
  }

  /** An event that makes the channel look at its input again. */
  predicate Triggers(s: State, e: Event) {
    !(e.Wanted? && !e.wanted) && !(e.AgentReply? && !s.pending)
  }

  function NewData(e: Event): seq<byte> {
    if e.Data? then e.data else []
  }

  /** One event: the books still balance, nothing servable is left waiting, and
      EOF is said once more exactly when the event finds the channel finished. */
  lemma StepKeeps(agent: Agent, s: State, e: Event, received: seq<byte>)
    requires Inv(agent, s, received)
    requires s.pending || !s.wanted || !Complete(s.inbuffer)
    ensures var t := Step(agent, s, e);
      && Inv(agent, t, received + NewData(e))
      && (t.pending || !t.wanted || !Complete(t.inbuffer))
      && Eofs(t.out) == Eofs(s.out) + if Triggers(s, e) && Finished(t) then 1 else 0
  {
    hide Said, Complete, Forward, Finished, ReplyBytes, Eofs;
    match e
    case Data(data) =>
      Assoc(Encode(Queries(s.out)), s.inbuffer, data);
      ForwardKeeps(agent, s.(inbuffer := s.inbuffer + data), received + data);
    case RemoteEof =>
      assert received + [] == received;
      ForwardKeeps(agent, s.(rcvdEof := true), received);
    case Wanted(w) =>
      assert received + [] == received;
      if w {
        ForwardKeeps(agent, s.(wanted := true), received);
      }
    case AgentReply(reply) =>
      assert received + [] == received;
      if s.pending {
        var w := Write(ReplyBytes(reply));
        Say(agent, s.out, Queries(s.out), Waiting, Eofs(s.out), w);
        SaidMeans(agent, s.out + [w], Queries(s.out), Idle, Eofs(s.out));
        ForwardKeeps(agent, s.(pending := false, out := s.out + [w]), received);
      }
  }

  /** For every agent and every run: the framed requests forwarded so far followed
      by the input buffer are the bytes received, at most one query is pending and
      each gets one reply before the next, EOF never overtakes a pending query,
      and between events nothing servable is left. */
  lemma {:induction false} RunsAreSafe(agent: Agent, events: seq<Event>)
    ensures var s := Run(agent, events);
      Inv(agent, s, Received(events)) && (s.pending || !s.wanted || !Complete(s.inbuffer))
  {
    if events != [] {
      hide Inv, Complete, Step;
      var n := |events| - 1;
      RunsAreSafe(agent, events[..n]);
      StepKeeps(agent, Run(agent, events[..n]), events[n], Received(events[..n]));
    }
  }

  /** What has been forwarded is always a prefix of the requests the received
      bytes frame, and all of them once the channel is idle and wanted. */
  lemma ForwardedInOrder(agent: Agent, events: seq<Event>)
    ensures var s := Run(agent, events);
      && Queries(s.out) <= Frames(Received(events))
      && (!s.pending && s.wanted ==> Queries(s.out) == Frames(Received(events)))
  {
    hide Said, Run, Received;
    RunsAreSafe(agent, events);
    var s := Run(agent, events);
    FramesOfEncoded(Queries(s.out), s.inbuffer);
  }

  /** However the same bytes are cut into chunks, and whatever else happens in
      between, two idle channels have forwarded the same requests. */
  lemma ChunkingIsInvisible(agent: Agent, es: seq<Event>, fs: seq<Event>)
    requires Received(es) == Received(fs)
    requires var s := Run(agent, es); !s.pending && s.wanted
    requires var s := Run(agent, fs); !s.pending && s.wanted
    ensures Queries(Run(agent, es).out) == Queries(Run(agent, fs).out)
  {
    hide Run, Received, Frames;
    ForwardedInOrder(agent, es);
    ForwardedInOrder(agent, fs);
  }

  /** Once a request has been rejected as too long nothing is ever forwarded
      again. */
  lemma RejectionIsFinal(agent: Agent, s: State, e: Event)
    requires !s.pending && Overlong(s.inbuffer)
    ensures var t := Step(agent, s, e);
      !t.pending && Overlong(t.inbuffer) && Queries(t.out) == Queries(s.out)
  {
    hide FromU32;
    assert e.Data? ==> (s.inbuffer + e.data)[..4] == s.inbuffer[..4];
    var s1 := if e.Data? then s.(inbuffer := s.inbuffer + e.data)
      else if e.RemoteEof? then s.(rcvdEof := true)
      else if e.Wanted? then s.(wanted := e.wanted) else s;
    if s1.wanted {
      TakesNothing(agent, s1);
      QueriesAppend(s1.out, Write(FAILURE));
      QueriesAppend(s1.out + [Write(FAILURE)], WriteEof);
      assert s1.out + [Write(FAILURE), WriteEof] == s1.out + [Write(FAILURE)] + [WriteEof];
    }
  }

  // ----- the agent's replies

  /** The answer to the query at position i, if it is given at once, is what is
      written next: the bytes of the reply, or without one those of a failure. */
  predicate AnswerWritten(agent: Agent, out: seq<Output>, i: nat)
    requires i < |out| && out[i].Query?
  {
    match agent(|Queries(out[..i])|, out[i].message)
    case Later => true
    case Now(reply) =>
      && i + 1 < |out|
      && match reply
         case Some(r) => out[i + 1] == Write(r)
         case None => out[i + 1] == Write([0, 0, 0, 1, 5])
  }

  /** In every run. */
  lemma AnswersAreWritten(agent: Agent, events: seq<Event>)
    ensures var out := Run(agent, events).out;
      forall i :: 0 <= i < |out| && out[i].Query? ==> AnswerWritten(agent, out, i)
  {
    RunsAreSafe(agent, events);
    hide Run, AnsweredAt, AnswerWritten, Accounted, PhaseOf;
    var out := Run(agent, events).out;
    forall i | 0 <= i < |out| && out[i].Query? ensures AnswerWritten(agent, out, i) {
      AnsweredIsWritten(agent, out, i);
    }
  }

  lemma AnsweredIsWritten(agent: Agent, out: seq<Output>, i: nat)
    requires i < |out| && out[i].Query? && AnsweredAt(agent, out, i)
    ensures AnswerWritten(agent, out, i)
  {
  }

  lemma ForwardAdds(agent: Agent, s: State)
    ensures s.out <= Forward(agent, s).out
  {
    hide Served, Closing;
  }

  lemma StepAdds(agent: Agent, s: State, e: Event)
    ensures s.out <= Step(agent, s, e).out
    ensures s.pending && e.AgentReply? ==>
      s.out + [Write(if e.reply.Some? then e.reply.value else [0, 0, 0, 1, 5])] <= Step(agent, s, e).out
  {
    hide Forward;
    match e
    case Data(data) => ForwardAdds(agent, s.(inbuffer := s.inbuffer + data));
    case RemoteEof => ForwardAdds(agent, s.(rcvdEof := true));
    case Wanted(w) => ForwardAdds(agent, s.(wanted := true));
    case AgentReply(reply) =>
      ForwardAdds(agent, s.(pending := false, out := s.out + [Write(ReplyBytes(reply))]));
  }

  lemma {:induction false} OutputGrows(agent: Agent, events: seq<Event>, i: nat)
    requires i <= |events|
    ensures Run(agent, events[..i]).out <= Run(agent, events).out
    decreases |events| - i
  {
    hide Step;
    if i == |events| {
      assert events[..i] == events;
    } else {
      assert events[..i + 1][..i] == events[..i];
      StepAdds(agent, Run(agent, events[..i]), events[i]);
      OutputGrows(agent, events, i + 1);
    }
  }

  /** A promised reply is written when it comes, before anything else happens. */
  lemma PromiseIsWritten(agent: Agent, events: seq<Event>, i: nat)
    requires i < |events| && events[i].AgentReply? && Run(agent, events[..i]).pending
    ensures var k, out := |Run(agent, events[..i]).out|, Run(agent, events).out;
      && k < |out|
      && match events[i].reply
         case Some(r) => out[k] == Write(r)
         case None => out[k] == Write([0, 0, 0, 1, 5])
  {
    hide Step;
    assert events[..i + 1][..i] == events[..i];
    var s := Run(agent, events[..i]);
    StepAdds(agent, s, events[i]);
    OutputGrows(agent, events, i + 1);
    var w := Write(if events[i].reply.Some? then events[i].reply.value else [0, 0, 0, 1, 5]);
    assert (s.out + [w])[|s.out|] == w;
  }

  // ----- how often EOF is said

  /** What is left of the input behind all its acceptable requests. */
  function Leftover(s: seq<byte>): seq<byte>
    decreases |s|
  {
    if Complete(s) then Leftover(Tail(s)) else s
  }

  /** Told from the state before the event: the event makes the channel look at
      its input, nothing keeps it from serving, the agent answers every request
      then waiting at once, and what is left is overlong or the remote EOF is in. */
  predicate SaysEof(agent: Agent, s: State, e: Event) {
    && Triggers(s, e)
    && (s.wanted || e.Wanted?)
    && (!s.pending || e.AgentReply?)
    && !Waits(agent, |Queries(s.out)|, Frames(s.inbuffer + NewData(e)))
    && (s.rcvdEof || e.RemoteEof? || Overlong(Leftover(s.inbuffer + NewData(e))))
  }

  lemma {:induction false} AllTaken(agent: Agent, n: nat, ms: seq<seq<byte>>)
    requires !Waits(agent, n, ms)
    ensures Taken(agent, n, ms) == |ms|
    decreases |ms|
  {
    if ms != [] {
      AllTaken(agent, n + 1, ms[1..]);
    }
  }

  lemma {:induction false} SkipAll(s: seq<byte>)
    ensures Skip(s, |Frames(s)|) == Leftover(s)
    decreases |s|
  {
    hide Complete, Head, Tail;
    if Complete(s) {
      HeadIsFrame(s);
      SkipAll(Tail(s));
    }
  }

  /** Forwarding ends with the channel finished exactly when the agent leaves
      nothing waiting and what is then left is overlong or followed by EOF. */
  lemma ForwardFinishes(agent: Agent, s: State)
    requires !s.pending && s.wanted
    ensures Finished(Forward(agent, s)) <==>
      && !Waits(agent, |Queries(s.out)|, Frames(s.inbuffer))
      && (s.rcvdEof || Overlong(Leftover(s.inbuffer)))
  {
    var n, ms := |Queries(s.out)|, Frames(s.inbuffer);
    if !Waits(agent, n, ms) {
      AllTaken(agent, n, ms);
      SkipAll(s.inbuffer);
    }
  }

  /** An event adds one EOF exactly when `SaysEof` held of it before. */
  lemma EofExactly(agent: Agent, s: State, e: Event, received: seq<byte>)
    requires Inv(agent, s, received)
    requires s.pending || !s.wanted || !Complete(s.inbuffer)
    ensures Eofs(Step(agent, s, e).out) == Eofs(s.out) + if SaysEof(agent, s, e) then 1 else 0
  {
    StepKeeps(agent, s, e, received);
    hide Inv, Complete, Forward, Eofs, Overlong, ReplyBytes;
    assert s.inbuffer + [] == s.inbuffer;
    if Triggers(s, e) {
      var s1 := match e
        case Data(data) => s.(inbuffer := s.inbuffer + data)
        case RemoteEof => s.(rcvdEof := true)
        case Wanted(w) => s.(wanted := true)
        case AgentReply(reply) => s.(pending := false, out := s.out + [Write(ReplyBytes(reply))]);
      assert Step(agent, s, e) == Forward(agent, s1);
      if e.AgentReply? {
        QueriesAppend(s.out, Write(ReplyBytes(e.reply)));
      }
      if !s1.pending && s1.wanted {
        ForwardFinishes(agent, s1);
      } else {
        StaysPut(agent, s1);
      }
    }
  }

  lemma StaysPut(agent: Agent, s: State)
    requires s.pending || !s.wanted
    ensures Forward(agent, s) == s
  {
  }

  /** The event at position i of a run says EOF. */
  predicate EofAt(agent: Agent, events: seq<Event>, i: nat)
    requires i < |events|
  {
    SaysEof(agent, Run(agent, events[..i]), events[i])
  }

  function EofPositions(agent: Agent, events: seq<Event>): set<nat> {
    set i: nat | i < |events| && EofAt(agent, events, i)
  }

  lemma PositionsGrow(agent: Agent, events: seq<Event>)
    requires events != []
    ensures var n := |events| - 1;
      EofPositions(agent, events)
        == EofPositions(agent, events[..n]) + if EofAt(agent, events, n) then {n} else {}
  {
    hide EofAt;
    var n := |events| - 1;
    forall i: nat | i < n ensures EofAt(agent, events, i) == EofAt(agent, events[..n], i) {
      SamePosition(agent, events, n, i);
    }
  }

  function EofsOf(agent: Agent, events: seq<Event>): nat {
    Eofs(Run(agent, events).out)
  }

  lemma LastEof(agent: Agent, events: seq<Event>)
    requires events != []
    ensures var n := |events| - 1;
      EofsOf(agent, events) == EofsOf(agent, events[..n]) + if EofAt(agent, events, n) then 1 else 0
  {
    hide Step, SaysEof, Inv, Complete;
    var n := |events| - 1;
    RunsAreSafe(agent, events[..n]);
    EofExactly(agent, Run(agent, events[..n]), events[n], Received(events[..n]));
  }

  /** Every run says EOF once at each such position and nowhere else. */
  lemma {:induction false} EofCount(agent: Agent, events: seq<Event>)
    ensures EofsOf(agent, events) == |EofPositions(agent, events)|
  {
    if events == [] {
      assert EofPositions(agent, events) == {};
    } else {
      hide EofsOf, EofAt;
      var n := |events| - 1;
      EofCount(agent, events[..n]);
      LastEof(agent, events);
      PositionsGrow(agent, events);
      assert n !in EofPositions(agent, events[..n]);
    }
  }

  lemma AtMostOne(s: set<nat>)
    ensures |s| <= 1 <==> forall i, j :: i in s && j in s ==> i == j
  {
    if i, j :| i in s && j in s && i != j {
      assert {i, j} <= s;
      SubsetSize({i, j}, s);
    } else if i :| i in s {
      assert s == {i};
    }
  }

  lemma SubsetSize(a: set<nat>, b: set<nat>)
    requires a <= b
    ensures |a| <= |b|
  {
    assert b == a + (b - a);
  }

  /** A run says EOF at most once exactly when no two of its positions meet the
      condition. */
  lemma EofOnceExactly(agent: Agent, events: seq<Event>)
    ensures EofsOf(agent, events) <= 1
      <==> forall i: nat, j: nat :: i < j < |events| && EofAt(agent, events, i) ==> !EofAt(agent, events, j)
  {
    hide EofAt, EofsOf;
    EofCount(agent, events);
    var at := EofPositions(agent, events);
    AtMostOne(at);
    if i: nat, j: nat :| i < j < |events| && EofAt(agent, events, i) && EofAt(agent, events, j) {
      assert i in at && j in at;
    }
  }

  // ----- whether anything is written after an EOF

  predicate NothingAfterEof(out: seq<Output>) {
    forall i, j :: 0 <= i < j < |out| && out[i] == WriteEof ==> !out[j].Write?
  }

  predicate Writing(out: seq<Output>) {
    exists i :: 0 <= i < |out| && out[i].Write?
  }

  predicate Ended(out: seq<Output>) {
    exists i :: 0 <= i < |out| && out[i] == WriteEof
  }

  lemma AfterEofAppend(out: seq<Output>, more: seq<Output>)
    requires NothingAfterEof(more)
    ensures NothingAfterEof(out + more) <==> NothingAfterEof(out) && !(Ended(out) && Writing(more))
  {
    var t := out + more;
    assert t[..|out|] == out && t[|out|..] == more;
    if NothingAfterEof(t) {
      forall i, j | 0 <= i < |out| && 0 <= j < |more| && out[i] == WriteEof ensures !more[j].Write? {
        assert t[i] == out[i] && t[|out| + j] == more[j];
      }
      forall i, j | 0 <= i < j < |out| && out[i] == WriteEof ensures !out[j].Write? {
        assert t[i] == out[i] && t[j] == out[j];
      }
    }
  }

  /** Serving the input begins with something written: an answer given at once, or
      the failure that announces a rejection. */
  predicate ServesAtOnce(agent: Agent, n: nat, input: seq<byte>) {
    if Complete(input) then agent(n, Head(input)).Now? else Overlong(input)
  }

  /** Told from the state before the event: it writes to the channel. */
  predicate Writes(agent: Agent, s: State, e: Event) {
    && Triggers(s, e)
    && (e.AgentReply? ||
        (!s.pending && (s.wanted || e.Wanted?) && ServesAtOnce(agent, |Queries(s.out)|, s.inbuffer + NewData(e))))
  }

  lemma {:induction false} ServedWrites(agent: Agent, n: nat, ms: seq<seq<byte>>)
    ensures !Ended(Served(agent, n, ms))
    ensures Writing(Served(agent, n, ms)) <==> ms != [] && agent(n, ms[0]).Now?
    decreases |ms|
  {
    if ms != [] && agent(n, ms[0]).Now? {
      var first: seq<Output> := [Query(ms[0]), Write(ReplyBytes(agent(n, ms[0]).reply))];
      var rest := Served(agent, n + 1, ms[1..]);
      ServedWrites(agent, n + 1, ms[1..]);
      assert (first + rest)[1].Write?;
      forall i | 0 <= i < |first + rest| ensures (first + rest)[i] != WriteEof {
        assert i >= 2 ==> (first + rest)[i] == rest[i - 2];
      }
    }
  }

  lemma ForwardSays(agent: Agent, s: State) returns (more: seq<Output>)
    requires !s.pending && s.wanted
    ensures Forward(agent, s).out == s.out + more && NothingAfterEof(more)
    ensures Writing(more) <==> ServesAtOnce(agent, |Queries(s.out)|, s.inbuffer)
  {
    var n, ms := |Queries(s.out)|, Frames(s.inbuffer);
    var rest := Skip(s.inbuffer, Taken(agent, n, ms));
    var served := Served(agent, n, ms);
    var closing := if Waits(agent, n, ms) then [] else Closing(rest, s.rcvdEof);
    more := served + closing;
    assert s.out + served + closing == s.out + more;
    assert Complete(s.inbuffer) ==> ms[0] == Head(s.inbuffer);
    hide Complete, Overlong, Head, Tail, Served, Waits, Taken;
    ServedWrites(agent, n, ms);
    ClosingLast(served, closing);
    ServedFirst(agent, n, ms);
  }

  lemma ClosingLast(served: seq<Output>, closing: seq<Output>)
    requires !Ended(served) && (closing == [Write(FAILURE), WriteEof] || closing == [WriteEof] || closing == [])
    ensures NothingAfterEof(served + closing)
    ensures Writing(served + closing) <==> Writing(served) || closing == [Write(FAILURE), WriteEof]
  {
    var t := served + closing;
    forall i | 0 <= i < |served| ensures t[i] == served[i] != WriteEof {
    }
    if closing == [Write(FAILURE), WriteEof] {
      assert t[|served|] == Write(FAILURE);
    }
  }

  /** A request that is not answered at once is waited for. */
  lemma ServedFirst(agent: Agent, n: nat, ms: seq<seq<byte>>)
    ensures ms != [] && agent(n, ms[0]).Later? ==> Waits(agent, n, ms)
    ensures ms == [] ==> Taken(agent, n, ms) == 0 && !Waits(agent, n, ms)
  {
  }

  /** What one event says, in order and nothing else. */
  lemma StepSays(agent: Agent, s: State, e: Event) returns (more: seq<Output>)
    ensures Step(agent, s, e).out == s.out + more && NothingAfterEof(more)
    ensures Writing(more) <==> Writes(agent, s, e)
  {
    hide Forward, ServesAtOnce, ReplyBytes;
    assert s.inbuffer + [] == s.inbuffer && s.out + [] == s.out;
    more := [];
    match e
    case Data(data) =>
      if !s.pending && s.wanted {
        more := ForwardSays(agent, s.(inbuffer := s.inbuffer + data));
      } else {
        StaysPut(agent, s.(inbuffer := s.inbuffer + data));
      }
    case RemoteEof =>
      if !s.pending && s.wanted {
        more := ForwardSays(agent, s.(rcvdEof := true));
      } else {
        StaysPut(agent, s.(rcvdEof := true));
      }
    case Wanted(w) =>
      if w && !s.pending {
        more := ForwardSays(agent, s.(wanted := true));
      } else if w {
        StaysPut(agent, s.(wanted := true));
      }
    case AgentReply(reply) =>
      if s.pending {
        more := ReplySays(agent, s, reply);
      }
  }

  lemma ReplySays(agent: Agent, s: State, reply: Option<seq<byte>>) returns (more: seq<Output>)
    requires s.pending
    ensures Step(agent, s, AgentReply(reply)).out == s.out + more && NothingAfterEof(more) && Writing(more)
  {
    hide Forward, ReplyBytes;
    var w := [Write(ReplyBytes(reply))];
    var s1 := s.(pending := false, out := s.out + w);
    more := [];
    if s.wanted {
      more := ForwardSays(agent, s1);
    } else {
      StaysPut(agent, s1);
    }
    assert s.out + w + more == s.out + (w + more);
    AfterEofAppend(w, more);
    more := w + more;
    assert more[0].Write?;
  }

  predicate WriteAt(agent: Agent, events: seq<Event>, i: nat)
    requires i < |events|
  {
    Writes(agent, Run(agent, events[..i]), events[i])
  }

  /** EOF has been said once some position of the run met its condition. */
  lemma EndedExactly(agent: Agent, events: seq<Event>)
    ensures RunHasEnded(agent, events) <==> SomeEof(agent, events)
  {
    hide EofAt;
    EofCount(agent, events);
    EndedMeans(Run(agent, events).out);
    assert RunHasEnded(agent, events) <==> EofsOf(agent, events) > 0;
    hide RunHasEnded, EofsOf;
    var at := EofPositions(agent, events);
    if i: nat :| i < |events| && EofAt(agent, events, i) {
      assert i in at;
    }
  }

  lemma {:induction false} EndedMeans(out: seq<Output>)
    ensures Ended(out) <==> Eofs(out) > 0
  {
    if out != [] {
      var n := |out| - 1;
      EndedMeans(out[..n]);
      assert forall i :: 0 <= i < n ==> out[..n][i] == out[i];
      if i :| 0 <= i < |out| && out[i] == WriteEof {
        assert i < n ==> out[..n][i] == WriteEof;
      }
    }
  }

  predicate RunIsClean(agent: Agent, events: seq<Event>) {
    NothingAfterEof(Run(agent, events).out)
  }

  predicate RunHasEnded(agent: Agent, events: seq<Event>) {
    Ended(Run(agent, events).out)
  }

  lemma LastWrites(agent: Agent, events: seq<Event>)
    requires events != []
    ensures var n := |events| - 1;
      RunIsClean(agent, events) <==>
        RunIsClean(agent, events[..n]) && !(RunHasEnded(agent, events[..n]) && WriteAt(agent, events, n))
  {
    hide Step, Writes, NothingAfterEof, Ended, Writing;
    var n := |events| - 1;
    var more := StepSays(agent, Run(agent, events[..n]), events[n]);
    AfterEofAppend(Run(agent, events[..n]).out, more);
  }

  /** No position that writes comes after one that says EOF. */
  predicate NoWriteAfterEof(agent: Agent, events: seq<Event>) {
    forall i: nat, j: nat :: i < j < |events| && EofAt(agent, events, i) ==> !WriteAt(agent, events, j)
  }

  predicate SomeEof(agent: Agent, events: seq<Event>) {
    exists i: nat :: i < |events| && EofAt(agent, events, i)
  }

  lemma LastPosition(agent: Agent, events: seq<Event>)
    requires events != []
    ensures var n := |events| - 1;
      NoWriteAfterEof(agent, events) <==>
        NoWriteAfterEof(agent, events[..n]) && !(SomeEof(agent, events[..n]) && WriteAt(agent, events, n))
  {
    hide EofAt, WriteAt, NoWriteAfterEof;
    var n := |events| - 1;
    if NoWriteAfterEof(agent, events) {
      NoneInFront(agent, events, n);
    } else {
      SomewhereInside(agent, events, n);
    }
  }

  lemma NoneInFront(agent: Agent, events: seq<Event>, n: nat)
    requires n == |events| - 1 && NoWriteAfterEof(agent, events)
    ensures NoWriteAfterEof(agent, events[..n])
    ensures SomeEof(agent, events[..n]) ==> !WriteAt(agent, events, n)
  {
    hide EofAt, WriteAt;
    forall i: nat, j: nat | i < j < n && EofAt(agent, events[..n], i) ensures !WriteAt(agent, events[..n], j) {
      SamePosition(agent, events, n, i);
      SamePosition(agent, events, n, j);
    }
    if i: nat :| i < n && EofAt(agent, events[..n], i) {
      SamePosition(agent, events, n, i);
    }
  }

  lemma SomewhereInside(agent: Agent, events: seq<Event>, n: nat)
    requires n == |events| - 1 && !NoWriteAfterEof(agent, events)
    ensures !NoWriteAfterEof(agent, events[..n]) || (SomeEof(agent, events[..n]) && WriteAt(agent, events, n))
  {
    hide EofAt, WriteAt;
    var i: nat, j: nat :| i < j < |events| && EofAt(agent, events, i) && WriteAt(agent, events, j);
    SamePosition(agent, events, n, i);
    if j < n {
      SamePosition(agent, events, n, j);
    }
  }

  lemma SamePosition(agent: Agent, events: seq<Event>, n: nat, i: nat)
    requires i < n <= |events|
    ensures EofAt(agent, events, i) == EofAt(agent, events[..n], i)
    ensures WriteAt(agent, events, i) == WriteAt(agent, events[..n], i)
  {
    hide SaysEof, Writes;
    assert events[..n][..i] == events[..i];
  }

  /** A run writes nothing after an EOF exactly when no position that writes comes
      after one that says EOF. */
  lemma {:induction false} NothingAfterEofExactly(agent: Agent, events: seq<Event>)
    ensures RunIsClean(agent, events) <==> NoWriteAfterEof(agent, events)
  {
    if events != [] {
      hide *;
      var n := |events| - 1;
      NothingAfterEofExactly(agent, events[..n]);
      EndedExactly(agent, events[..n]);
      LastWrites(agent, events);
      LastPosition(agent, events);
    }
  }

  lemma RunOfTwo(agent: Agent, d: Event, e: Event)
    ensures Run(agent, [d, e]) == Step(agent, Step(agent, START, d), e)
  {
    assert [d, e][..1] == [d] && [d][..0] == [];
    hide Step;
    assert Run(agent, [d]) == Step(agent, START, d);
  }

  lemma Rejects(agent: Agent, s: State, data: seq<byte>)
    requires !s.pending && s.wanted && Overlong(s.inbuffer + data)
    ensures Step(agent, s, Data(data)) == s.(inbuffer := s.inbuffer + data, out := s.out + [Write(FAILURE), WriteEof])
  {
    hide Forward, FromU32;
    TakesNothing(agent, s.(inbuffer := s.inbuffer + data));
  }

  lemma OverlongHeader()
    ensures Overlong([0, 4, 0, 0])
  {
    assert [0, 4, 0, 0][..4] == [0, 4, 0, 0];
  }

  /** Data after an overlong request, even none, are answered by another failure,
      written after the EOF.  The header of a request of 2^18 bytes is such an
      input. */
  lemma WritesAfterEof(agent: Agent, input: seq<byte>, chunk: seq<byte>)
    requires Overlong(input)
    ensures Overlong([0, 4, 0, 0])
    ensures Run(agent, [Data(input), Data(chunk)]).out == [Write(FAILURE), WriteEof, Write(FAILURE), WriteEof]
    ensures !RunIsClean(agent, [Data(input), Data(chunk)])
  {
    OverlongHeader();
    hide Run, Step, FromU32;
    RunOfTwo(agent, Data(input), Data(chunk));
    assert [] + input == input && (input + chunk)[..4] == input[..4];
    Rejects(agent, START, input);
    Rejects(agent, Step(agent, START, Data(input)), chunk);
    var out := Run(agent, [Data(input), Data(chunk)]).out;
    assert out[1] == WriteEof && out[2].Write?;
  }

  /** EOF is not said at most once: each further trigger after the end repeats
      it, for every agent. */
  lemma EofRepeats(agent: Agent)
    ensures Run(agent, [RemoteEof]).out == [WriteEof]
    ensures Run(agent, [RemoteEof, Wanted(true)]).out == [WriteEof, WriteEof]
  {
    var one := [RemoteEof];
    var two := [RemoteEof, Wanted(true)];
    assert one[..0] == [] && two[..1] == one;
    assert Run(agent, []) == START;
    TakesNothing(agent, START.(rcvdEof := true));
    var s := Run(agent, one);
    assert s == START.(rcvdEof := true, out := [WriteEof]);
    TakesNothing(agent, s);
  }
}
