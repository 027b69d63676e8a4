/** The tool-calling loop between the chat service, an arbitrary model and arbitrary tools
    (chat-api/gemini.go, and the history cap of chat-api/handler.go). */
module Chat {
  import opened Basics

  const MAX_TOOL_ITERATIONS: nat := 8
  const MAX_HISTORY_TURNS: nat := 20

  datatype FunctionCall = FunctionCall(name: string, args: string)

  /** A response object: decoded from the tool's JSON, or a text wrapped under "error" or "result". */
  datatype ResponseObject = Decoded(json: string) | ErrorText(text: string) | ResultText(text: string)
  datatype FunctionResponse = FunctionResponse(name: string, response: ResponseObject)

  datatype Part = Part(text: string, call: Option<FunctionCall>, response: Option<FunctionResponse>)
  datatype Content = Content(role: string, parts: seq<Part>)
  datatype HistoryTurn = HistoryTurn(role: string, text: string)

  /** What a tool returns: a result text, and the text of its error if it failed. */
  datatype ToolResult = ToolResult(result: string, error: Option<string>)

  /** The model's reply to the i-th request (None is a client error, an empty candidate list included), the
      outcome of the j-th call of that reply, and which texts decode as a JSON object. */
  datatype World = World(
    model: (nat, seq<Content>) -> Option<Content>,
    tool: (nat, nat, FunctionCall) -> ToolResult,
    decodes: string -> bool)

  datatype Outcome = Answer(text: string) | ClientError | GaveUp

  function TextPart(text: string): Part {
    Part(text, None, None)
  }

  function InitialTurn(turn: HistoryTurn): Content {
    Content(if turn.role == "user" then "user" else "model", [TextPart(turn.text)])
  }

  /** The history in Gemini's roles, then the question. */
  method BuildInitialContents(question: string, history: seq<HistoryTurn>) returns (contents: seq<Content>)
    ensures contents == InitialContents(question, history)
  {
    contents := [];
    for i := 0 to |history|
      invariant contents == seq(i, k requires 0 <= k < i => InitialTurn(history[k]))
    {
      var role := "model";
      if history[i].role == "user" {
        role := "user";
      }
      contents := contents + [Content(role, [TextPart(history[i].text)])];
    }
    contents := contents + [Content("user", [TextPart(question)])];
  }

  function InitialContents(question: string, history: seq<HistoryTurn>): seq<Content> {
    seq(|history|, k requires 0 <= k < |history| => InitialTurn(history[k])) + [Content("user", [TextPart(question)])]
  }

  /** The handler keeps the last turns only. */
  function TrimHistory(history: seq<HistoryTurn>): seq<HistoryTurn> {
    if |history| > MAX_HISTORY_TURNS then history[|history| - MAX_HISTORY_TURNS..] else history
  }

  function FunctionCalls(parts: seq<Part>): seq<Part> {
    if parts == [] then []
    else
      var rest, last := FunctionCalls(parts[..|parts| - 1]), parts[|parts| - 1];
      if last.call.Some? then rest + [last] else rest
  }

  function ExtractText(parts: seq<Part>): string {
    if parts == [] then "" else ExtractText(parts[..|parts| - 1]) + parts[|parts| - 1].text
  }

  /** On a tool error it is the result, not the error's own text, that is wrapped. */
  function BuildFunctionResponsePart(w: World, name: string, r: ToolResult): Part {
    var response :=
      if r.error.Some? then ErrorText(r.result)
      else if w.decodes(r.result) then Decoded(r.result)
      else ResultText(r.result);
    Part("", None, Some(FunctionResponse(name, response)))
  }

  function ResponseParts(w: World, i: nat, calls: seq<Part>): seq<Part>
    requires forall j :: 0 <= j < |calls| ==> calls[j].call.Some?
  {
    seq(|calls|, j requires 0 <= j < |calls| =>
      BuildFunctionResponsePart(w, calls[j].call.value.name, w.tool(i, j, calls[j].call.value)))
  }

  /** The calls of a turn are its parts that carry one, in their order. */
  lemma {:induction false} FunctionCallsConcat(a: seq<Part>, b: seq<Part>)
    ensures FunctionCalls(a + b) == FunctionCalls(a) + FunctionCalls(b)
    ensures |b| == 1 ==> FunctionCalls(b) == if b[0].call.Some? then b else []
  {
    if b == [] {
      assert a + b == a;
    } else {
      assert (a + b)[..|a + b| - 1] == a + b[..|b| - 1];
      FunctionCallsConcat(a, b[..|b| - 1]);
      if |b| == 1 {
        assert b[..0] == [] && b == [b[0]];
      }
    }
  }

  /** The text of an answer is the text of its parts, in their order. */
  lemma {:induction false} ExtractTextConcat(a: seq<Part>, b: seq<Part>)
    ensures ExtractText(a + b) == ExtractText(a) + ExtractText(b)
    ensures |b| == 1 ==> ExtractText(b) == b[0].text
  {
    if b == [] {
      assert a + b == a;
    } else {
      assert (a + b)[..|a + b| - 1] == a + b[..|b| - 1];
      ExtractTextConcat(a, b[..|b| - 1]);
      ConcatAssociative(ExtractText(a), ExtractText(b[..|b| - 1]), b[|b| - 1].text);
      if |b| == 1 {
        assert b[..0] == [] && "" + b[0].text == b[0].text;
      }
    }
  }

  lemma {:induction false} FunctionCallsAreCalls(parts: seq<Part>)
    ensures forall j :: 0 <= j < |FunctionCalls(parts)| ==> FunctionCalls(parts)[j].call.Some?
    ensures FunctionCalls(parts) == [] <==> forall j :: 0 <= j < |parts| ==> parts[j].call.None?
  {
    if parts != [] {
      FunctionCallsAreCalls(parts[..|parts| - 1]);
    }
  }

  // ---------------------------------------------------------------- the loop

  function Reply(w: World, i: nat, contents: seq<Content>): Option<Content> {
    match w.model(i, contents)
    case None => None
    case Some(c) => Some(c.(role := "model"))
  }

  predicate AsksForTools(reply: Option<Content>) {
    reply.Some? && FunctionCalls(reply.value.parts) != []
  }

  function FunctionTurn(w: World, i: nat, reply: Content): Content {
    FunctionCallsAreCalls(reply.parts);
    Content("function", ResponseParts(w, i, FunctionCalls(reply.parts)))
  }

  /** The loop from its i-th iteration on: the outcome, and the contents of every request it sends. */
  function RunFrom(w: World, i: nat, contents: seq<Content>): (Outcome, seq<seq<Content>>)
    decreases MAX_TOOL_ITERATIONS - i
  {
    if i >= MAX_TOOL_ITERATIONS then (GaveUp, [])
    else
      match Reply(w, i, contents)
      case None => (ClientError, [contents])
      case Some(reply) =>
        if FunctionCalls(reply.parts) == [] then (Answer(ExtractText(reply.parts)), [contents])
        else
          var (outcome, sent) := RunFrom(w, i + 1, contents + [reply, FunctionTurn(w, i, reply)]);
          (outcome, [contents] + sent)
  }

  /** One iteration: the request goes out, and a reply that asks for tools leads to the next iteration. */
  lemma RunFromStep(w: World, i: nat, contents: seq<Content>, sent: seq<seq<Content>>)
    requires i < MAX_TOOL_ITERATIONS
    ensures var reply := Reply(w, i, contents);
            var (outcome, requests) := RunFrom(w, i, contents);
            (if reply.None? then outcome == ClientError && requests == [contents]
             else if FunctionCalls(reply.value.parts) == [] then
               outcome == Answer(ExtractText(reply.value.parts)) && requests == [contents]
             else
               var next := RunFrom(w, i + 1, contents + [reply.value] + [FunctionTurn(w, i, reply.value)]);
               outcome == next.0 && sent + requests == sent + [contents] + next.1)
  {
    var reply := Reply(w, i, contents);
    if reply.Some? && FunctionCalls(reply.value.parts) != [] {
      var turn := FunctionTurn(w, i, reply.value);
      assert contents + [reply.value] + [turn] == contents + [reply.value, turn];
      ConcatAssociative(sent, [contents], RunFrom(w, i + 1, contents + [reply.value, turn]).1);
    }
  }

  lemma GivesUp(w: World, contents: seq<Content>)
    ensures RunFrom(w, MAX_TOOL_ITERATIONS, contents) == (GaveUp, [])
  {
  }

  method RunChat(w: World, question: string, history: seq<HistoryTurn>) returns (outcome: Outcome, sent: seq<seq<Content>>)
    ensures outcome == RunFrom(w, 0, InitialContents(question, history)).0
    ensures sent == RunFrom(w, 0, InitialContents(question, history)).1
  {
    hide RunFrom, ExtractText, BuildFunctionResponsePart;
    var contents := BuildInitialContents(question, history);
    sent := [];
    ghost var whole := RunFrom(w, 0, contents);
    var i := 0;
    while i < MAX_TOOL_ITERATIONS
      invariant i <= MAX_TOOL_ITERATIONS
      invariant whole.0 == RunFrom(w, i, contents).0
      invariant whole.1 == sent + RunFrom(w, i, contents).1
    {
      RunFromStep(w, i, contents, sent);
      sent := sent + [contents];
      var response := w.model(i, contents);
      if response.None? {
        return ClientError, sent;
      }
      var modelContent := response.value.(role := "model");
      contents := contents + [modelContent];
      var functionCalls: seq<Part> := [];
      for k := 0 to |modelContent.parts|
        invariant functionCalls == FunctionCalls(modelContent.parts[..k])
      {
        assert modelContent.parts[..k + 1][..k] == modelContent.parts[..k];
        if modelContent.parts[k].call.Some? {
          functionCalls := functionCalls + [modelContent.parts[k]];
        }
      }
      assert modelContent.parts[..|modelContent.parts|] == modelContent.parts;
      if |functionCalls| == 0 {
        return Answer(ExtractText(modelContent.parts)), sent;
      }
      FunctionCallsAreCalls(modelContent.parts);
      var responseParts: seq<Part> := [];
      for j := 0 to |functionCalls|
        invariant |responseParts| == j
        invariant forall k :: 0 <= k < j ==> responseParts[k] == ResponseParts(w, i, functionCalls)[k]
      {
        var call := functionCalls[j].call.value;
        var result := w.tool(i, j, call);
        responseParts := responseParts + [BuildFunctionResponsePart(w, call.name, result)];
      }
      assert responseParts == ResponseParts(w, i, functionCalls);
      contents := contents + [Content("function", responseParts)];
      i := i + 1;
    }
    GivesUp(w, contents);
    return GaveUp, sent;
  }

  // ---------------------------------------------------------------- what the loop keeps

  /** A function turn answers the calls of a model turn one for one, in order and by name. */
  ghost predicate AnswersCalls(model: Content, function_: Content) {
    var calls := FunctionCalls(model.parts);
    && model.role == "model" && function_.role == "function"
    && calls != [] && |function_.parts| == |calls|
    && forall j :: 0 <= j < |calls| ==>
         && calls[j].call.Some? && function_.parts[j].response.Some?
         && function_.parts[j].response.value.name == calls[j].call.value.name
  }

  /** The next request repeats this one and adds a model turn and the function turn that answers it. */
  ghost predicate ExtendsByExchange(before: seq<Content>, after: seq<Content>) {
    && |after| == |before| + 2 && after[..|before|] == before
    && AnswersCalls(after[|before|], after[|before| + 1])
  }

  lemma FunctionTurnAnswers(w: World, i: nat, reply: Content)
    requires reply.role == "model" && FunctionCalls(reply.parts) != []
    ensures AnswersCalls(reply, FunctionTurn(w, i, reply))
  {
    var calls, turn := FunctionCalls(reply.parts), FunctionTurn(w, i, reply);
    FunctionCallsAreCalls(reply.parts);
    forall j | 0 <= j < |calls|
      ensures turn.parts[j].response.Some? && turn.parts[j].response.value.name == calls[j].call.value.name
    {
      assert turn.parts[j] == BuildFunctionResponsePart(w, calls[j].call.value.name, w.tool(i, j, calls[j].call.value));
    }
  }

  /** The outcome agrees with this reply to the request that was number k of a run that may send `left`. */
  predicate DecidedBy(outcome: Outcome, last: Option<Content>, k: nat, left: nat) {
    && (outcome.ClientError? <==> last.None?)
    && (outcome.Answer? <==> last.Some? && !AsksForTools(last))
    && (outcome.Answer? ==> outcome.text == ExtractText(last.value.parts))
    && (outcome.GaveUp? <==> AsksForTools(last))
    && (outcome.GaveUp? ==> k == left)
  }

  /** One iteration, as the first request and the run that follows it. */
  lemma RunFromUnfolds(w: World, i: nat, contents: seq<Content>)
    requires i < MAX_TOOL_ITERATIONS
    ensures var reply := Reply(w, i, contents);
            var (outcome, sent) := RunFrom(w, i, contents);
            if AsksForTools(reply) then
              var next := RunFrom(w, i + 1, contents + [reply.value, FunctionTurn(w, i, reply.value)]);
              outcome == next.0 && sent == [contents] + next.1
            else sent == [contents] && DecidedBy(outcome, reply, 1, MAX_TOOL_ITERATIONS - i)
  {
  }

  /** What a turn answers to a call at any place among its parts: a response by that call's name, at the place of the
      call among the calls, that carries the decoded result, or the result as text, or after an error the result
      as an error text. */
  lemma {:induction false} CallIsAnswered(w: World, i: nat, reply: Content, before: seq<Part>, part: Part, after: seq<Part>)
    requires reply.parts == before + [part] + after && part.call.Some?
    ensures var j, call := |FunctionCalls(before)|, part.call.value;
            var turn, r := FunctionTurn(w, i, reply), w.tool(i, |FunctionCalls(before)|, part.call.value);
            && turn.role == "function" && j < |turn.parts| && turn.parts[j].text == "" && turn.parts[j].call == None
            && (r.error.Some? ==> turn.parts[j].response == Some(FunctionResponse(call.name, ErrorText(r.result))))
            && (r.error.None? && w.decodes(r.result) ==> turn.parts[j].response == Some(FunctionResponse(call.name, Decoded(r.result))))
            && (r.error.None? && !w.decodes(r.result) ==> turn.parts[j].response == Some(FunctionResponse(call.name, ResultText(r.result))))
  {
    hide FunctionCalls;
    FunctionCallsConcat(before, [part]);
    FunctionCallsConcat(before + [part], after);
    FunctionCallsAreCalls(reply.parts);
    var calls := FunctionCalls(reply.parts);
    assert calls[|FunctionCalls(before)|] == part;
  }

  /** At most 8 requests from the start; each repeats the previous one and adds an exchange; their lengths
      grow by two. */
  lemma {:induction false} RequestsGrowByExchanges(w: World, i: nat, contents: seq<Content>)
    requires i < MAX_TOOL_ITERATIONS
    ensures var sent := RunFrom(w, i, contents).1;
            && 1 <= |sent| <= MAX_TOOL_ITERATIONS - i
            && sent[0] == contents
            && (forall k :: 0 <= k < |sent| - 1 ==> ExtendsByExchange(sent[k], sent[k + 1]))
            && (forall k :: 0 <= k < |sent| ==> |sent[k]| == |contents| + 2 * k)
    decreases MAX_TOOL_ITERATIONS - i
  {
    hide RunFrom, Reply, FunctionTurn, ExtendsByExchange;
    RunFromUnfolds(w, i, contents);
    var reply := Reply(w, i, contents);
    if AsksForTools(reply) {
      var next := contents + [reply.value, FunctionTurn(w, i, reply.value)];
      NextExtends(w, i, contents);
      if i + 1 < MAX_TOOL_ITERATIONS {
        RequestsGrowByExchanges(w, i + 1, next);
        var sent, rest := RunFrom(w, i, contents).1, RunFrom(w, i + 1, next).1;
        forall k | 0 <= k < |sent| - 1 ensures ExtendsByExchange(sent[k], sent[k + 1]) {
          if k > 0 {
            assert ExtendsByExchange(rest[k - 1], rest[k - 1 + 1]);
          }
        }
      } else {
        GivesUp(w, next);
      }
    }
  }

  lemma NextExtends(w: World, i: nat, contents: seq<Content>)
    requires AsksForTools(Reply(w, i, contents))
    ensures var reply := Reply(w, i, contents).value;
            ExtendsByExchange(contents, contents + [reply, FunctionTurn(w, i, reply)])
  {
    var reply := Reply(w, i, contents).value;
    FunctionTurnAnswers(w, i, reply);
    hide AnswersCalls, FunctionTurn;
    assert (contents + [reply, FunctionTurn(w, i, reply)])[..|contents|] == contents;
  }

  /** For every model and every tools: the requests of one chat, over the history the handler lets through. */
  lemma ChatRequests(w: World, question: string, history: seq<HistoryTurn>, k: nat)
    requires k < |RunFrom(w, 0, InitialContents(question, TrimHistory(history))).1|
    ensures var sent := RunFrom(w, 0, InitialContents(question, TrimHistory(history))).1;
            && |sent| <= 8
            && |sent[k]| == |TrimHistory(history)| + 1 + 2 * k <= 35
            && sent[k][|TrimHistory(history)|] == Content("user", [TextPart(question)])
            && (k > 0 ==> ExtendsByExchange(sent[k - 1], sent[k]))
  {
    var contents := InitialContents(question, TrimHistory(history));
    RequestsGrowByExchanges(w, 0, contents);
    QuestionStays(w, 0, contents, k, |TrimHistory(history)|);
    if k > 0 {
      assert ExtendsByExchange(RunFrom(w, 0, contents).1[k - 1], RunFrom(w, 0, contents).1[k - 1 + 1]);
    }
  }

  /** Every request begins with the last twenty turns of the history, oldest first, the user's as the user's and
      any other as the model's, and then the question. */
  lemma HistoryIsSent(w: World, question: string, history: seq<HistoryTurn>, k: nat, at: nat)
    requires k < |RunFrom(w, 0, InitialContents(question, TrimHistory(history))).1|
    requires at < |history| && at < 20
    ensures var n := if |history| < 20 then |history| else 20;
            var sent := RunFrom(w, 0, InitialContents(question, TrimHistory(history))).1;
            && |TrimHistory(history)| == n && n < |sent[k]| && sent[k][n] == Content("user", [Part(question, None, None)])
            && (var turn := history[|history| - n + at];
                sent[k][at] == Content(if turn.role == "user" then "user" else "model", [Part(turn.text, None, None)]))
  {
    hide RunFrom;
    var contents := InitialContents(question, TrimHistory(history));
    QuestionStays(w, 0, contents, k, |TrimHistory(history)|);
    QuestionStays(w, 0, contents, k, at);
  }

  /** No turn of an earlier request is ever changed. */
  lemma {:induction false} QuestionStays(w: World, i: nat, contents: seq<Content>, k: nat, at: nat)
    requires i < MAX_TOOL_ITERATIONS && k < |RunFrom(w, i, contents).1| && at < |contents|
    ensures at < |RunFrom(w, i, contents).1[k]| && RunFrom(w, i, contents).1[k][at] == contents[at]
    decreases k
  {
    RequestsGrowByExchanges(w, i, contents);
    var sent := RunFrom(w, i, contents).1;
    if k > 0 {
      QuestionStays(w, i, contents, k - 1, at);
      assert ExtendsByExchange(sent[k - 1], sent[k - 1 + 1]);
      assert sent[k][..|sent[k - 1]|][at] == sent[k][at];
    }
  }

  /** How a run ends is decided by the reply to its last request: an answer exactly when that reply is free
      of calls, a client error exactly when there is none, and giving up exactly when all 8 replies ask for
      tools. Every earlier reply asks for tools. */
  lemma {:induction false} OutcomeByLastReply(w: World, i: nat, contents: seq<Content>)
    requires i < MAX_TOOL_ITERATIONS
    ensures var (outcome, sent) := RunFrom(w, i, contents);
            && sent != []
            && DecidedBy(outcome, Reply(w, i + |sent| - 1, sent[|sent| - 1]), |sent|, MAX_TOOL_ITERATIONS - i)
            && (forall k :: 0 <= k < |sent| - 1 ==> AsksForTools(Reply(w, i + k, sent[k])))
    decreases MAX_TOOL_ITERATIONS - i
  {
    hide RunFrom, Reply, FunctionTurn, AsksForTools, ExtractText;
    RunFromUnfolds(w, i, contents);
    var reply := Reply(w, i, contents);
    if AsksForTools(reply) {
      assert reply.Some? by { AskingIsReplying(reply); }
      var next := contents + [reply.value, FunctionTurn(w, i, reply.value)];
      if i + 1 < MAX_TOOL_ITERATIONS {
        OutcomeByLastReply(w, i + 1, next);
        var sent, rest := RunFrom(w, i, contents).1, RunFrom(w, i + 1, next).1;
        forall k | 0 <= k < |sent| - 1 ensures AsksForTools(Reply(w, i + k, sent[k])) {
          if k > 0 {
            assert sent[k] == rest[k - 1] && AsksForTools(Reply(w, i + 1 + (k - 1), rest[k - 1]));
          }
        }
      } else {
        GivesUp(w, next);
      }
    }
  }

  lemma AskingIsReplying(reply: Option<Content>)
    requires AsksForTools(reply)
    ensures reply.Some?
  {
  }

  /** The contents before the k-th request in a chat that never stopped before it: None once a reply had no
      calls or failed. It knows of no iteration limit. */
  function ContentsBefore(w: World, contents: seq<Content>, k: nat): Option<seq<Content>> {
    if k == 0 then Some(contents)
    else
      match ContentsBefore(w, contents, k - 1)
      case None => None
      case Some(c) =>
        var reply := Reply(w, k - 1, c);
        if AsksForTools(reply) then Some(c + [reply.value, FunctionTurn(w, k - 1, reply.value)]) else None
  }

  /** The chat answers exactly when, without any limit, a call-free reply would come within 8 requests. */
  lemma AnswersIff(w: World, question: string, history: seq<HistoryTurn>)
    ensures var contents := InitialContents(question, history);
            RunFrom(w, 0, contents).0.Answer? <==>
              exists k: nat :: k < 8 && CallFreeReplyAt(w, contents, k)
    ensures RunFrom(w, 0, InitialContents(question, history)).0.GaveUp? ==>
              |RunFrom(w, 0, InitialContents(question, history)).1| == 8
  {
    var contents := InitialContents(question, history);
    AnswersFromIff(w, contents, 0, contents);
    OutcomeByLastReply(w, 0, contents);
    assert RunFrom(w, 0, contents).0.Answer? <==> exists k: nat :: 0 <= k < MAX_TOOL_ITERATIONS && CallFreeReplyAt(w, contents, k);
  }

  predicate CallFreeReplyAt(w: World, contents: seq<Content>, k: nat) {
    var c := ContentsBefore(w, contents, k);
    c.Some? && Reply(w, k, c.value).Some? && !AsksForTools(Reply(w, k, c.value))
  }

  lemma {:induction false} StoppedStaysStopped(w: World, contents: seq<Content>, i: nat, k: nat)
    requires i <= k && ContentsBefore(w, contents, i).None?
    ensures ContentsBefore(w, contents, k).None?
    decreases k
  {
    if i < k {
      StoppedStaysStopped(w, contents, i, k - 1);
    }
  }

  lemma {:induction false} AnswersFromIff(w: World, start: seq<Content>, i: nat, contents: seq<Content>)
    requires i <= MAX_TOOL_ITERATIONS && ContentsBefore(w, start, i) == Some(contents)
    ensures RunFrom(w, i, contents).0.Answer? <==>
              exists k: nat :: i <= k < MAX_TOOL_ITERATIONS && CallFreeReplyAt(w, start, k)
    decreases MAX_TOOL_ITERATIONS - i
  {
    if i < MAX_TOOL_ITERATIONS {
      var reply := Reply(w, i, contents);
      if AsksForTools(reply) {
        var next := contents + [reply.value, FunctionTurn(w, i, reply.value)];
        assert ContentsBefore(w, start, i + 1) == Some(next);
        AnswersFromIff(w, start, i + 1, next);
        assert !CallFreeReplyAt(w, start, i);
      } else {
        assert ContentsBefore(w, start, i + 1).None?;
        forall k: nat | i < k < MAX_TOOL_ITERATIONS ensures !CallFreeReplyAt(w, start, k) {
          StoppedStaysStopped(w, start, i + 1, k);
        }
        assert RunFrom(w, i, contents).0.Answer? <==> CallFreeReplyAt(w, start, i);
      }
    }
  }

  // ---------------------------------------------------------------- what the model sees of an error

  predicate CarriesError(part: Part, name: string, error: string) {
    part.response == Some(FunctionResponse(name, ErrorText(error)))
  }

  /** The response to a failed call carries the error's own text exactly when the tool's result repeats it. */
  lemma {:induction false} ErrorTextForwardedIff(w: World, i: nat, reply: Content, j: nat)
    requires j < |FunctionCalls(reply.parts)|
    ensures var call := FunctionCalls(reply.parts)[j].call;
            && call.Some? && |FunctionTurn(w, i, reply).parts| == |FunctionCalls(reply.parts)|
            && (var r := w.tool(i, j, call.value);
                r.error.Some? ==>
                  (CarriesError(FunctionTurn(w, i, reply).parts[j], call.value.name, r.error.value) <==> r.result == r.error.value))
  {
    hide FunctionCalls;
    FunctionCallsAreCalls(reply.parts);
  }

  /** What this repository's tools do: with every error they return the empty result. */
  ghost predicate EmptyOnError(w: World) {
    forall i, j, call :: w.tool(i, j, call).error.Some? ==> w.tool(i, j, call).result == ""
  }

  /** So the model is told no more than that the call failed, unless the error had nothing to say. */
  lemma {:induction false} ToolErrorsReachTheModelEmpty(w: World, i: nat, reply: Content, j: nat)
    requires EmptyOnError(w) && j < |FunctionCalls(reply.parts)|
    ensures var call := FunctionCalls(reply.parts)[j].call;
            && call.Some? && |FunctionTurn(w, i, reply).parts| == |FunctionCalls(reply.parts)|
            && (var error := w.tool(i, j, call.value).error;
                error.Some? ==>
                  (CarriesError(FunctionTurn(w, i, reply).parts[j], call.value.name, error.value) <==> error.value == ""))
  {
    hide FunctionCalls, FunctionTurn;
    ErrorTextForwardedIff(w, i, reply, j);
  }

  /** The two worlds have the same model and the same tools, except for what the errors say. */
  ghost predicate DifferInErrorTexts(w: World, w': World) {
    && w.model == w'.model && w.decodes == w'.decodes
    && (forall i, j, call ::
          w.tool(i, j, call).result == w'.tool(i, j, call).result && w.tool(i, j, call).error.Some? == w'.tool(i, j, call).error.Some?)
  }

  lemma SameTurns(w: World, w': World, i: nat, reply: Content)
    requires DifferInErrorTexts(w, w')
    ensures FunctionTurn(w, i, reply) == FunctionTurn(w', i, reply)
  {
    FunctionCallsAreCalls(reply.parts);
    hide FunctionCalls;
    var calls := FunctionCalls(reply.parts);
    assert ResponseParts(w, i, calls) == ResponseParts(w', i, calls);
  }

  /** No error text has any influence on a chat: whatever the errors say, every request and the outcome
      are the same. */
  lemma {:induction false} ErrorTextsAreInvisible(w: World, w': World, i: nat, contents: seq<Content>)
    requires DifferInErrorTexts(w, w')
    ensures RunFrom(w, i, contents) == RunFrom(w', i, contents)
    decreases MAX_TOOL_ITERATIONS - i
  {
    hide FunctionTurn, ExtractText, DifferInErrorTexts;
    if i < MAX_TOOL_ITERATIONS {
      assert Reply(w, i, contents) == Reply(w', i, contents) by { SameReplies(w, w', i, contents); }
      var reply := Reply(w, i, contents);
      if AsksForTools(reply) {
        SameTurns(w, w', i, reply.value);
        ErrorTextsAreInvisible(w, w', i + 1, contents + [reply.value, FunctionTurn(w, i, reply.value)]);
      }
    }
  }

  lemma SameReplies(w: World, w': World, i: nat, contents: seq<Content>)
    requires DifferInErrorTexts(w, w')
    ensures Reply(w, i, contents) == Reply(w', i, contents)
  {
  }
}
