/** The bounded turn loop of the copilot, against any model and any transport.

    The model and the transport are functions of what they have been asked so far, so every
    sequence of replies they could give is covered. */
module TurnLoop {
  import opened Wrappers
  import opened ToolSurface
  import Json

  datatype Role = System | User | Assistant | Tool

  datatype ToolCall = ToolCall(id: string, name: string, arguments: string)

  datatype Message = Message(role: Role, content: Option<string>, calls: seq<ToolCall>, callId: Option<string>)

  datatype Policy = Policy(allowMutation: bool, maxRounds: nat, maxToolCalls: nat, maxResultBytes: nat)

  datatype Refusal = UnknownTool | ReadOnlyPolicy

  datatype Outcome = Done(result: Json.Json) | Refused(reason: Refusal) | Failed(message: string)

  datatype Step = Step(tool: string, method_: Option<string>, arguments: Json.Json, outcome: Outcome)

  datatype Turn = Turn(reply: string, steps: seq<Step>, rounds: nat)

  datatype AskError = ToolCallBudget(budget: nat) | RoundBudget(budget: nat) | ProviderFailed(message: string)

  /** One call that reached the transport. */
  datatype Sent = Sent(method_: string, params: Json.Json)

  /** Everything a turn does not change. */
  datatype Setup = Setup(
    answer: (nat, seq<Message>, seq<string>) -> Result<Message, string>,
    reply: (nat, Sent) -> Result<Json.Json, string>,
    local: (string, Json.Json) -> Outcome,
    parse: string -> Option<Json.Json>,
    isBlank: string -> bool,
    bytes: Json.Json -> nat,
    truncated: (nat, nat) -> Json.Json,
    render: Outcome -> string,
    surface: Surface,
    policy: Policy,
    system: Message)

  /** What a turn changes: the conversation, the transcript and what was asked of others. */
  datatype State = State(history: seq<Message>, steps: seq<Step>, sent: seq<Sent>, asked: nat)

  function UserMessage(text: string): Message {
    Message(User, Some(text), [], None)
  }

  function ToolMessage(id: string, text: string): Message {
    Message(Tool, Some(text), [], Some(id))
  }

  function Text(m: Message): string {
    if m.content.Some? then m.content.value else ""
  }

  // ---------- One call ----------

  function ParseArguments(c: Setup, text: string): Result<Json.Json, string> {
    if c.isBlank(text) then Ok(Json.Obj(map[]))
    else
      match c.parse(text)
      case Some(v) => if v.Obj? then Ok(v) else Err("not an object")
      case None => Err("not JSON")
  }

  function Bound(c: Setup, v: Json.Json): Json.Json {
    if c.bytes(v) <= c.policy.maxResultBytes then v else c.truncated(c.bytes(v), c.policy.maxResultBytes)
  }

  /** The outcome of a tool and what the transport has been sent after it. */
  function DispatchSpec(c: Setup, sent: seq<Sent>, tool: string, arguments: Json.Json): (Outcome, seq<Sent>) {
    match c.surface.Get(tool)
    case None => (Refused(UnknownTool), sent)
    case Some(spec) =>
      if spec.effect == Mutate && !c.policy.allowMutation then (Refused(ReadOnlyPolicy), sent)
      else
        match spec.method_
        case None => (c.local(tool, arguments), sent)
        case Some(m) =>
          var call := Sent(m, arguments);
          (match c.reply(|sent|, call)
           case Ok(v) => Done(Bound(c, v))
           case Err(e) => Failed(e),
           sent + [call])
  }

  function AnswerCall(c: Setup, st: State, call: ToolCall): State {
    var parsed := ParseArguments(c, call.arguments);
    var (outcome, sent) :=
      match parsed
      case Ok(v) => DispatchSpec(c, st.sent, call.name, v)
      case Err(e) => (Failed(e), st.sent);
    var spec := c.surface.Get(call.name);
    State(
      st.history + [ToolMessage(call.id, c.render(outcome))],
      st.steps + [Step(call.name, if spec.Some? then spec.value.method_ else None,
                       if parsed.Ok? then parsed.value else Json.Null, outcome)],
      sent,
      st.asked)
  }

  // ---------- The turn ----------

  /** Answers the calls of one message in order, as far as the budget reaches. */
  function AnswerCalls(c: Setup, st: State, calls: seq<ToolCall>): (State, Option<AskError>)
    decreases |calls|
  {
    if calls == [] then (st, None)
    else if |st.steps| >= c.policy.maxToolCalls then (st, Some(ToolCallBudget(c.policy.maxToolCalls)))
    else AnswerCalls(c, AnswerCall(c, st, calls[0]), calls[1..])
  }

  function Rounds(c: Setup, st: State, round: nat): (State, Result<Turn, AskError>)
    decreases c.policy.maxRounds + 1 - round
  {
    if round > c.policy.maxRounds then (st, Err(RoundBudget(c.policy.maxRounds)))
    else
      match c.answer(st.asked, [c.system] + st.history, c.surface.Offered(c.policy.allowMutation))
      case Err(e) => (State(st.history, st.steps, st.sent, st.asked + 1), Err(ProviderFailed(e)))
      case Ok(m) =>
        var heard := State(st.history + [m], st.steps, st.sent, st.asked + 1);
        if m.calls == [] then (heard, Ok(Turn(Text(m), st.steps, round)))
        else
          var (after, failure) := AnswerCalls(c, heard, m.calls);
          if failure.Some? then (after, Err(failure.value)) else Rounds(c, after, round + 1)
  }

  function AskSpec(c: Setup, history: seq<Message>, sent: seq<Sent>, asked: nat, question: string)
    : (State, Result<Turn, AskError>)
  {
    Rounds(c, State(history + [UserMessage(question)], [], sent, asked), 1)
  }

  class Copilot {
    const setup: Setup
    /** Everything the transport has been sent. */
    var sent: seq<Sent>
    /** How often the model has been asked. */
    var asked: nat

    constructor (setup: Setup)
      ensures this.setup == setup && sent == [] && asked == 0
    {
      this.setup := setup;
      sent, asked := [], 0;
    }

    /** Runs one tool. With an index that fits its tools, what happens is up to the first tool
        of the name. */
    method Dispatch(tool: string, arguments: Json.Json) returns (outcome: Outcome)
      modifies this`sent
      ensures (outcome, sent) == DispatchSpec(setup, old(sent), tool, arguments)
      ensures old(sent) <= sent && |sent| <= |old(sent)| + 1
      ensures setup.surface.Valid() ==> Obeys(setup, old(sent), tool, arguments, outcome, sent)
    {
      if setup.surface.Valid() {
        DispatchObeys(setup, sent, tool, arguments);
      }
      var spec := setup.surface.Get(tool);
      if spec.None? {
        return Refused(UnknownTool);
      }
      if spec.value.effect == Mutate && !setup.policy.allowMutation {
        return Refused(ReadOnlyPolicy);
      }
      if spec.value.method_.None? {
        return setup.local(tool, arguments);
      }
      var call := Sent(spec.value.method_.value, arguments);
      var called := setup.reply(|sent|, call);
      sent := sent + [call];
      outcome := match called
                 case Ok(v) => Done(Bound(setup, v))
                 case Err(e) => Failed(e);
    }

    /** Answers one question; the conversation comes back with everything said in it. */
    method Ask(history: seq<Message>, question: string)
      returns (history': seq<Message>, r: Result<Turn, AskError>, ghost final: State)
      modifies this
      ensures (final, r) == AskSpec(setup, history, old(sent), old(asked), question)
      ensures history' == final.history && sent == final.sent && asked == final.asked
    {
      hide Obeys, DispatchSpec, ParseArguments;
      history' := history + [UserMessage(question)];
      var tools := setup.surface.Offered(setup.policy.allowMutation);
      var steps: seq<Step> := [];
      var calls := 0;
      var round := 1;
      while round <= setup.policy.maxRounds
        invariant calls == |steps|
        invariant AskSpec(setup, history, old(sent), old(asked), question)
               == Rounds(setup, State(history', steps, sent, asked), round)
        decreases setup.policy.maxRounds + 1 - round
      {
        var completion := setup.answer(asked, [setup.system] + history', tools);
        asked := asked + 1;
        if completion.Err? {
          final := State(history', steps, sent, asked);
          return history', Err(ProviderFailed(completion.error)), final;
        }
        var m := completion.value;
        history' := history' + [m];
        if m.calls == [] {
          final := State(history', steps, sent, asked);
          return history', Ok(Turn(Text(m), steps, round)), final;
        }
        ghost var heard := State(history', steps, sent, asked);
        for i := 0 to |m.calls|
          invariant calls == |steps|
          invariant AnswerCalls(setup, heard, m.calls)
                 == AnswerCalls(setup, State(history', steps, sent, asked), m.calls[i..])
        {
          assert m.calls[i..][1..] == m.calls[i + 1..];
          if calls >= setup.policy.maxToolCalls {
            final := State(history', steps, sent, asked);
            return history', Err(ToolCallBudget(setup.policy.maxToolCalls)), final;
          }
          calls := calls + 1;
          var call := m.calls[i];
          var parsed := ParseArguments(setup, call.arguments);
          var outcome;
          match parsed {
            case Ok(v) => outcome := Dispatch(call.name, v);
            case Err(e) => outcome := Failed(e);
          }
          var spec := setup.surface.Get(call.name);
          history' := history' + [ToolMessage(call.id, setup.render(outcome))];
          steps := steps + [Step(call.name, if spec.Some? then spec.value.method_ else None,
                                 if parsed.Ok? then parsed.value else Json.Null, outcome)];
        }
        round := round + 1;
      }
      final := State(history', steps, sent, asked);
      r := Err(RoundBudget(setup.policy.maxRounds));
    }
  }

  // ---------- One call, by the list of tools ----------

  ghost predicate FirstNamed(tools: seq<ToolSpec>, i: nat, name: string) {
    i < |tools| && tools[i].name == name && forall j :: 0 <= j < i ==> tools[j].name != name
  }

  /** What one call may do. A name no tool has is refused. Else the first tool of the name
      decides: one that changes the run is refused when that is not allowed; one without a
      method never reaches the transport; and any other sends its method with the arguments as
      given, once, and ends as the transport says, a result within the limit unchanged. */
  ghost predicate Obeys(c: Setup, sent: seq<Sent>, tool: string, arguments: Json.Json, outcome: Outcome,
                        sent': seq<Sent>)
  {
    var tools := c.surface.tools;
    && ((forall i :: 0 <= i < |tools| ==> tools[i].name != tool) ==> outcome == Refused(UnknownTool) && sent' == sent)
    && (forall i: nat :: FirstNamed(tools, i, tool) ==>
         var t := tools[i];
         var refused := t.effect == Mutate && !c.policy.allowMutation;
         && (refused ==> outcome == Refused(ReadOnlyPolicy) && sent' == sent)
         && (t.method_.None? ==> sent' == sent)
         && (!refused && t.method_.Some? ==>
              var call := Sent(t.method_.value, arguments);
              && sent' == sent + [call]
              && match c.reply(|sent|, call)
                 case Ok(v) => outcome.Done? && (c.bytes(v) <= c.policy.maxResultBytes ==> outcome.result == v)
                 case Err(e) => outcome == Failed(e)))
  }

  lemma DispatchObeys(c: Setup, sent: seq<Sent>, tool: string, arguments: Json.Json)
    requires c.surface.Valid()
    ensures var (outcome, sent') := DispatchSpec(c, sent, tool, arguments);
      Obeys(c, sent, tool, arguments, outcome, sent')
  {
    GetFindsTheFirst(c.surface, tool);
    forall i: nat | FirstNamed(c.surface.tools, i, tool)
      ensures c.surface.Get(tool) == Some(c.surface.tools[i])
    {
      var first := c.surface.byName[tool];
      assert c.surface.tools[first].name == tool;
    }
  }

  // ---------- Budgets and permissions ----------

  /** Some tool forwards to the method and the policy allows calling it. */
  ghost predicate Permitted(c: Setup, method_: string) {
    exists i :: 0 <= i < |c.surface.tools|
      && c.surface.tools[i].method_ == Some(method_)
      && (c.policy.allowMutation || c.surface.tools[i].effect != Mutate)
  }

  /** From one state to a later one of the same turn: the logs grow, at most one transport
      call goes with each step, and only permitted methods are sent. */
  ghost predicate Grows(c: Setup, st: State, st': State) {
    && st.history <= st'.history && st.steps <= st'.steps && st.sent <= st'.sent && st.asked <= st'.asked
    && |st'.sent| - |st.sent| <= |st'.steps| - |st.steps|
    && (forall i :: |st.sent| <= i < |st'.sent| ==> Permitted(c, st'.sent[i].method_))
  }

  lemma GrowsTwice(c: Setup, st: State, st1: State, st2: State)
    requires Grows(c, st, st1) && Grows(c, st1, st2)
    ensures Grows(c, st, st2)
  {
    assert forall i :: |st.sent| <= i < |st1.sent| ==> st2.sent[i] == st1.sent[i];
  }

  lemma DispatchIsPermitted(c: Setup, sent: seq<Sent>, tool: string, arguments: Json.Json)
    ensures var (outcome, sent') := DispatchSpec(c, sent, tool, arguments);
      sent' == sent || (|sent'| == |sent| + 1 && sent <= sent' && Permitted(c, sent'[|sent|].method_))
  {
    var spec := c.surface.Get(tool);
    if spec.Some? {
      var i := c.surface.byName[tool];
      assert c.surface.tools[i] == spec.value;
    }
  }

  lemma AnswerCallGrows(c: Setup, st: State, call: ToolCall)
    ensures Grows(c, st, AnswerCall(c, st, call)) && AnswerCall(c, st, call).asked == st.asked
    ensures |AnswerCall(c, st, call).steps| == |st.steps| + 1
  {
    var parsed := ParseArguments(c, call.arguments);
    if parsed.Ok? {
      DispatchIsPermitted(c, st.sent, call.name, parsed.value);
    }
  }

  lemma {:induction false} AnswerCallsGrows(c: Setup, st: State, calls: seq<ToolCall>)
    requires |st.steps| <= c.policy.maxToolCalls
    ensures var (st', failure) := AnswerCalls(c, st, calls);
      && Grows(c, st, st') && st'.asked == st.asked && |st'.steps| <= c.policy.maxToolCalls
      && (failure.Some? ==>
           failure.value == ToolCallBudget(c.policy.maxToolCalls) && |st'.steps| == c.policy.maxToolCalls)
    decreases |calls|
  {
    if calls != [] && |st.steps| < c.policy.maxToolCalls {
      var next := AnswerCall(c, st, calls[0]);
      AnswerCallGrows(c, st, calls[0]);
      AnswerCallsGrows(c, next, calls[1..]);
      GrowsTwice(c, st, next, AnswerCalls(c, next, calls[1..]).0);
    }
  }

  lemma GrowsSelf(c: Setup, st: State)
    ensures Grows(c, st, st)
  {
  }

  lemma HeardGrows(c: Setup, st: State, heard: seq<Message>)
    ensures Grows(c, st, State(st.history + heard, st.steps, st.sent, st.asked + 1))
    ensures heard == [] ==> st.history + heard == st.history
  {
  }

  lemma {:induction false} RoundsGrow(c: Setup, st: State, round: nat)
    requires |st.steps| <= c.policy.maxToolCalls && 1 <= round <= c.policy.maxRounds + 1
    ensures var (st', r) := Rounds(c, st, round);
      && Grows(c, st, st') && |st'.steps| <= c.policy.maxToolCalls
      && st'.asked - st.asked <= c.policy.maxRounds + 1 - round
      && (match r
          case Ok(t) => t.rounds == round - 1 + (st'.asked - st.asked) && t.steps == st'.steps
          case Err(RoundBudget(n)) => n == c.policy.maxRounds && st'.asked - st.asked == n + 1 - round
          case Err(ToolCallBudget(n)) => n == c.policy.maxToolCalls && |st'.steps| == n
          case Err(ProviderFailed(_)) => true)
    decreases c.policy.maxRounds + 1 - round
  {
    hide Grows, AnswerCalls;
    GrowsSelf(c, st);
    if round <= c.policy.maxRounds {
      var reply := c.answer(st.asked, [c.system] + st.history, c.surface.Offered(c.policy.allowMutation));
      HeardGrows(c, st, if reply.Ok? then [reply.value] else []);
      if reply.Ok? && reply.value.calls != [] {
        var heard := State(st.history + [reply.value], st.steps, st.sent, st.asked + 1);
        AnswerCallsGrows(c, heard, reply.value.calls);
        var (after, failure) := AnswerCalls(c, heard, reply.value.calls);
        GrowsTwice(c, st, heard, after);
        if failure.None? {
          RoundsGrow(c, after, round + 1);
          GrowsTwice(c, st, after, Rounds(c, after, round + 1).0);
        }
      }
    }
  }

  /** Any turn, whatever the model and the transport answer: the model is asked at most
      `maxRounds` times, at most `maxToolCalls` calls are answered, each reaches the transport
      at most once, and a budget error means that very budget was used up. */
  lemma TurnStaysInBudget(c: Setup, history: seq<Message>, sent: seq<Sent>, asked: nat, question: string)
    ensures var (st, r) := AskSpec(c, history, sent, asked, question);
      && history + [UserMessage(question)] <= st.history && sent <= st.sent
      && asked <= st.asked <= asked + c.policy.maxRounds
      && |st.sent| - |sent| <= |st.steps| <= c.policy.maxToolCalls
      && (r.Ok? ==> r.value.rounds == st.asked - asked && r.value.steps == st.steps)
      && (r == Err(RoundBudget(c.policy.maxRounds)) ==> st.asked == asked + c.policy.maxRounds)
      && (r == Err(ToolCallBudget(c.policy.maxToolCalls)) ==> |st.steps| == c.policy.maxToolCalls)
  {
    RoundsGrow(c, State(history + [UserMessage(question)], [], sent, asked), 1);
  }

  /** A read-only turn sends the transport no method that changes the run, even when the model
      names a tool it was not offered. */
  lemma ReadOnlySendsNoMutation(c: Setup, history: seq<Message>, sent: seq<Sent>, asked: nat, question: string, i: nat)
    requires !c.policy.allowMutation && c.surface.Classified()
    requires |sent| <= i < |AskSpec(c, history, sent, asked, question).0.sent|
    ensures EffectOf(AskSpec(c, history, sent, asked, question).0.sent[i].method_) != Mutate
    ensures AskSpec(c, history, sent, asked, question).0.sent[i].method_ !in MUTATING
  {
    hide EffectOf;
    RoundsGrow(c, State(history + [UserMessage(question)], [], sent, asked), 1);
    var m := AskSpec(c, history, sent, asked, question).0.sent[i].method_;
    assert Permitted(c, m);
    NotMutateNotListed(m);
  }

  lemma NotMutateNotListed(m: string)
    ensures EffectOf(m) == Mutate <==> m in MUTATING
  {
  }

  // ---------- The transcript tells what was sent ----------

  /** A step whose call reached the transport: it has a method and readable arguments, and it
      was not refused. */
  predicate WentOut(s: Step) {
    s.method_.Some? && s.arguments.Obj? && !s.outcome.Refused?
  }

  /** What a transcript says the transport was sent. */
  function Forwarded(steps: seq<Step>): seq<Sent> {
    if steps == [] then []
    else
      Forwarded(steps[..|steps| - 1]) + SentBy(steps[|steps| - 1])
  }

  function SentBy(s: Step): seq<Sent> {
    if WentOut(s) then [Sent(s.method_.value, s.arguments)] else []
  }

  /** A step that went out ends as the transport answers it, cut to the limit. */
  ghost predicate EndsAsAnswered(c: Setup, sent: seq<Sent>, s: Step) {
    WentOut(s) ==>
      s.outcome == match c.reply(|sent|, Sent(s.method_.value, s.arguments))
                   case Ok(v) => Done(Bound(c, v))
                   case Err(e) => Failed(e)
  }

  /** Every step that went out ends as answered, by its place among them. */
  ghost predicate Truthful(c: Setup, before: seq<Sent>, steps: seq<Step>) {
    steps != [] ==>
      var front, last := steps[..|steps| - 1], steps[|steps| - 1];
      Truthful(c, before, front) && EndsAsAnswered(c, before + Forwarded(front), last)
  }

  ghost predicate Accounted(c: Setup, before: seq<Sent>, st: State) {
    st.sent == before + Forwarded(st.steps) && Truthful(c, before, st.steps)
  }

  /** What one call adds to the transcript and to what was sent. */
  lemma AnswerCallAdds(c: Setup, st: State, call: ToolCall) returns (s: Step)
    ensures var st' := AnswerCall(c, st, call);
      && st'.steps == st.steps + [s]
      && st'.sent == st.sent + SentBy(s)
      && EndsAsAnswered(c, st.sent, s)
  {
    var st' := AnswerCall(c, st, call);
    s := st'.steps[|st.steps|];
    assert st.sent + [] == st.sent;
  }

  lemma AccountsGrow(c: Setup, before: seq<Sent>, steps: seq<Step>, s: Step)
    requires Truthful(c, before, steps) && EndsAsAnswered(c, before + Forwarded(steps), s)
    ensures Truthful(c, before, steps + [s])
    ensures Forwarded(steps + [s]) == Forwarded(steps) + SentBy(s)
  {
    var all := steps + [s];
    assert all[..|all| - 1] == steps;
    hide SentBy, EndsAsAnswered;
  }

  lemma AnswerCallAccounted(c: Setup, before: seq<Sent>, st: State, call: ToolCall)
    requires Accounted(c, before, st)
    ensures Accounted(c, before, AnswerCall(c, st, call))
  {
    hide AnswerCall, Forwarded, Truthful, SentBy, EndsAsAnswered;
    var s := AnswerCallAdds(c, st, call);
    AccountsGrow(c, before, st.steps, s);
  }

  lemma {:induction false} AnswerCallsAccounted(c: Setup, before: seq<Sent>, st: State, calls: seq<ToolCall>)
    requires Accounted(c, before, st)
    ensures Accounted(c, before, AnswerCalls(c, st, calls).0)
    decreases |calls|
  {
    hide Accounted, AnswerCall;
    if calls != [] && |st.steps| < c.policy.maxToolCalls {
      AnswerCallAccounted(c, before, st, calls[0]);
      AnswerCallsAccounted(c, before, AnswerCall(c, st, calls[0]), calls[1..]);
    }
  }

  lemma {:induction false} RoundsAccounted(c: Setup, before: seq<Sent>, st: State, round: nat)
    requires Accounted(c, before, st)
    ensures Accounted(c, before, Rounds(c, st, round).0)
    decreases c.policy.maxRounds + 1 - round
  {
    hide Forwarded, Truthful;
    if round <= c.policy.maxRounds {
      var reply := c.answer(st.asked, [c.system] + st.history, c.surface.Offered(c.policy.allowMutation));
      if reply.Ok? && reply.value.calls != [] {
        var heard := State(st.history + [reply.value], st.steps, st.sent, st.asked + 1);
        AnswerCallsAccounted(c, before, heard, reply.value.calls);
        var (after, failure) := AnswerCalls(c, heard, reply.value.calls);
        if failure.None? {
          RoundsAccounted(c, before, after, round + 1);
        }
      }
    }
  }

  /** Of any turn, also one that ends in an error: the transport was sent exactly what the
      transcript says, in that order and with those arguments, and the transcript holds its
      answers. */
  lemma TranscriptTellsWhatWasSent(c: Setup, history: seq<Message>, sent: seq<Sent>, asked: nat, question: string)
    ensures var st := AskSpec(c, history, sent, asked, question).0;
      st.sent == sent + Forwarded(st.steps) && Truthful(c, sent, st.steps)
  {
    var start := State(history + [UserMessage(question)], [], sent, asked);
    assert sent + Forwarded([]) == sent;
    RoundsAccounted(c, sent, start, 1);
  }

  // ---------- The conversation of a successful turn ----------

  /** What the transcript says of one call: unreadable arguments fail it, a tool that does not
      exist or is not allowed refuses it, whatever else the call asks for. */
  ghost predicate StepFits(c: Setup, call: ToolCall, s: Step) {
    var spec := c.surface.Get(call.name);
    && s.tool == call.name
    && s.method_ == (if spec.Some? then spec.value.method_ else None)
    && match ParseArguments(c, call.arguments)
       case Err(e) => s.arguments == Json.Null && s.outcome == Failed(e)
       case Ok(v) =>
         && s.arguments == v
         && (spec.None? ==> s.outcome == Refused(UnknownTool))
         && (spec.Some? && spec.value.effect == Mutate && !c.policy.allowMutation ==>
              s.outcome == Refused(ReadOnlyPolicy))
  }

  /** Each call has its tool message and its step, in order. */
  ghost predicate Answers(c: Setup, calls: seq<ToolCall>, replies: seq<Message>, steps: seq<Step>) {
    && |replies| == |calls| == |steps|
    && forall i :: 0 <= i < |calls| ==>
         replies[i] == ToolMessage(calls[i].id, c.render(steps[i].outcome)) && StepFits(c, calls[i], steps[i])
  }

  /** What is said after the question: the model's answer to exactly the conversation so far;
      the answers to its calls; and so on, until it calls nothing. */
  ghost predicate Conversation(c: Setup, history: seq<Message>, asked: nat, said: seq<Message>, steps: seq<Step>,
                               rounds: nat)
    decreases rounds
  {
    && said != [] && rounds > 0
    && c.answer(asked, [c.system] + history, c.surface.Offered(c.policy.allowMutation)) == Ok(said[0])
    && var k := |said[0].calls|;
       if k == 0 then |said| == 1 && steps == [] && rounds == 1
       else
         && |said| > k && |steps| >= k
         && Answers(c, said[0].calls, said[1..k + 1], steps[..k])
         && Conversation(c, history + said[..k + 1], asked + 1, said[k + 1..], steps[k..], rounds - 1)
  }

  lemma AnswerCallAnswers(c: Setup, st: State, call: ToolCall) returns (reply: Message, step: Step)
    ensures reply == ToolMessage(call.id, c.render(step.outcome)) && StepFits(c, call, step)
    ensures var next := AnswerCall(c, st, call);
      next.history == st.history + [reply] && next.steps == st.steps + [step] && next.asked == st.asked
  {
    var next := AnswerCall(c, st, call);
    reply, step := next.history[|st.history|], next.steps[|st.steps|];
  }

  lemma {:induction false} AnswerCallsAnswers(c: Setup, st: State, calls: seq<ToolCall>)
    returns (replies: seq<Message>, steps: seq<Step>)
    requires AnswerCalls(c, st, calls).1.None?
    ensures Answers(c, calls, replies, steps)
    ensures AnswerCalls(c, st, calls).0.history == st.history + replies
    ensures AnswerCalls(c, st, calls).0.steps == st.steps + steps
    ensures AnswerCalls(c, st, calls).0.asked == st.asked
    decreases |calls|
  {
    hide AnswerCall, StepFits;
    if calls == [] {
      replies, steps := [], [];
    } else {
      var next := AnswerCall(c, st, calls[0]);
      var reply, step := AnswerCallAnswers(c, st, calls[0]);
      var replies', steps' := AnswerCallsAnswers(c, next, calls[1..]);
      replies, steps := [reply] + replies', [step] + steps';
      assert st.history + [reply] + replies' == st.history + replies;
      assert st.steps + [step] + steps' == st.steps + steps;
    }
  }

  lemma LastOfConversation(c: Setup, history: seq<Message>, asked: nat, said: seq<Message>, steps: seq<Step>,
                           rounds: nat)
    requires Conversation(c, history, asked, said, steps, rounds)
    ensures said != [] && rounds > 0
  {
  }

  lemma JoinConversation(c: Setup, history: seq<Message>, asked: nat, m: Message, replies: seq<Message>,
                         news: seq<Step>, said: seq<Message>, steps: seq<Step>, rounds: nat)
    requires c.answer(asked, [c.system] + history, c.surface.Offered(c.policy.allowMutation)) == Ok(m)
    requires m.calls != [] && Answers(c, m.calls, replies, news)
    requires Conversation(c, history + [m] + replies, asked + 1, said, steps, rounds)
    ensures Conversation(c, history, asked, [m] + replies + said, news + steps, rounds + 1)
  {
    var all, k := [m] + replies + said, |m.calls|;
    assert all[1..k + 1] == replies && all[k + 1..] == said && all[0] == m;
    assert (news + steps)[..k] == news && (news + steps)[k..] == steps;
    assert history + all[..k + 1] == history + [m] + replies;
    LastOfConversation(c, history + [m] + replies, asked + 1, said, steps, rounds);
  }

  /** A turn that went from `st` at `round` to success in `st'` has said and done this much. */
  ghost predicate Concluded(c: Setup, st: State, round: nat, st': State, t: Turn, said: seq<Message>, steps: seq<Step>)
  {
    && t.rounds >= round
    && st'.history == st.history + said && st'.steps == st.steps + steps && t.steps == st'.steps
    && Conversation(c, st.history, st.asked, said, steps, t.rounds + 1 - round)
    && t.reply == Text(said[|said| - 1])
  }

  lemma ConcludedEarlier(c: Setup, st: State, round: nat, m: Message, replies: seq<Message>, news: seq<Step>,
                         after: State, st': State, t: Turn, said: seq<Message>, steps: seq<Step>)
    requires Concluded(c, after, round + 1, st', t, said, steps)
    requires c.answer(st.asked, [c.system] + st.history, c.surface.Offered(c.policy.allowMutation)) == Ok(m)
    requires m.calls != [] && Answers(c, m.calls, replies, news) && after.asked == st.asked + 1
    requires after.history == st.history + [m] + replies && after.steps == st.steps + news
    ensures Concluded(c, st, round, st', t, [m] + replies + said, news + steps)
  {
    hide Conversation, Answers;
    LastOfConversation(c, after.history, after.asked, said, steps, t.rounds - round);
    JoinConversation(c, st.history, st.asked, m, replies, news, said, steps, t.rounds - round);
    RoundBeforeRest(st.history, m, replies, said);
    assert st.steps + news + steps == st.steps + (news + steps);
  }

  lemma {:induction false} RoundsConverse(c: Setup, st: State, round: nat)
    returns (said: seq<Message>, steps: seq<Step>)
    requires round >= 1 && Rounds(c, st, round).1.Ok?
    ensures Concluded(c, st, round, Rounds(c, st, round).0, Rounds(c, st, round).1.value, said, steps)
    decreases c.policy.maxRounds + 1 - round
  {
    var m := c.answer(st.asked, [c.system] + st.history, c.surface.Offered(c.policy.allowMutation)).value;
    if m.calls == [] {
      said, steps := [m], [];
    } else {
      var heard := State(st.history + [m], st.steps, st.sent, st.asked + 1);
      var after := AnswerCalls(c, heard, m.calls).0;
      RoundsStep(c, st, round, m);
      hide Rounds, Concluded, Answers, AnswerCalls;
      var replies, news := AnswerCallsAnswers(c, heard, m.calls);
      var said', steps' := RoundsConverse(c, after, round + 1);
      var (st', r) := Rounds(c, after, round + 1);
      ConcludedEarlier(c, st, round, m, replies, news, after, st', r.value, said', steps');
      said, steps := [m] + replies + said', news + steps';
    }
  }

  lemma RoundBeforeRest(history: seq<Message>, m: Message, replies: seq<Message>, said: seq<Message>)
    requires said != []
    ensures history + [m] + replies + said == history + ([m] + replies + said)
    ensures var all := [m] + replies + said; all[|all| - 1] == said[|said| - 1]
  {
  }

  lemma RoundsStep(c: Setup, st: State, round: nat, m: Message)
    requires c.answer(st.asked, [c.system] + st.history, c.surface.Offered(c.policy.allowMutation)) == Ok(m)
    requires m.calls != [] && Rounds(c, st, round).1.Ok?
    ensures var (after, failure) := AnswerCalls(c, State(st.history + [m], st.steps, st.sent, st.asked + 1), m.calls);
      round <= c.policy.maxRounds && failure.None? && Rounds(c, st, round) == Rounds(c, after, round + 1)
  {
    var heard := State(st.history + [m], st.steps, st.sent, st.asked + 1);
    var failure: Option<AskError> := AnswerCalls(c, heard, m.calls).1;
    match failure
    case Some(_) =>
    case None =>
  }

  /** On success the conversation is complete: every call the model made is answered, in
      order, by exactly one tool message that quotes its id, with one step for each; the last
      word is the model's, and is the reply. */
  lemma SuccessfulTurnIsComplete(c: Setup, history: seq<Message>, sent: seq<Sent>, asked: nat, question: string)
    returns (said: seq<Message>)
    requires AskSpec(c, history, sent, asked, question).1.Ok?
    ensures var (st, r) := AskSpec(c, history, sent, asked, question);
      && st.history == history + [UserMessage(question)] + said
      && Conversation(c, history + [UserMessage(question)], asked, said, r.value.steps, r.value.rounds)
      && r.value.reply == Text(said[|said| - 1])
  {
    var steps;
    said, steps := RoundsConverse(c, State(history + [UserMessage(question)], [], sent, asked), 1);
    assert [] + steps == steps;
  }
}
