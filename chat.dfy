/**
  The `POST /chat` handler of index.js: a falsy `message` is answered with
  a fixed two-turn greeting; any other message is put into the prompt, the
  language model's answer is read into planned turns, the turns are
  voiced, and the result is sent with status 200; an exception while
  building the prompt or generating the answer gives status 500 and one
  fixed turn.

  The language model, the file system and the speech tools are not
  modelled: what they do is part of the `Environment` the caller
  supplies.
*/
module Chat {
  import opened Json
  import ReplyParsing
  import Enrichment

  /** `!userMessage`; `None` stands for a body without `message`
      (`undefined`). Among JSON values the falsy ones are `null`, `false`,
      the number zero (`0`, `-0`, `0.0e5`, ...) and the empty string. */
  function Falsy(message: Option<Value>): (r: bool)
    ensures message.Some? && (message.value.Obj? || message.value.Arr?) ==> !r
    ensures message.Some? && message.value.Str? ==> (r <==> message.value.s == "")
  {
    match message
    case None => true
    case Some(v) => v.Null? || v == Bool(false) || (v.Num? && DenotesZero(v.lexeme)) || v == Str("")
  }

  /** Whether converting `v` to a string, as the template literal of the
      prompt does, throws a TypeError. An object whose own `toString`
      property is data (not a function) has no usable `toString` and its
      `valueOf` returns the object itself, so the conversion throws; an
      array is converted by joining its converted elements. Only objects
      and arrays can throw; an object throws exactly when reading its
      `toString` finds an own property. */
  function ToStringThrows(v: Value): (r: bool)
    ensures r ==> v.Obj? || v.Arr?
    ensures v.Obj? ==> (r <==> Get(v.members, "toString").Some?)
    decreases v
  {
    match v
    case Obj(ms) => KeyIndex(ms, "toString").Some?
    case Arr(items) => exists i :: 0 <= i < |items| && ToStringThrows(items[i])
    case _ => false
  }

  /** What `ai.models.generateContent` does: throw, or answer with a
      `text` that may be `undefined` (`None`). */
  datatype Generation = GenerationThrows | Generated(text: Option<string>)

  /** Everything outside the program that one request meets. */
  datatype Environment = Environment(
    intro0Audio: Option<string>,   // audios/intro_0.wav, base64-encoded, or a read error
    intro0Cues: Option<string>,    // audios/intro_0.json, or a read error
    intro1Audio: Option<string>,   // audios/intro_1.wav
    intro1Cues: Option<string>,    // audios/intro_1.json
    greetingThrows: bool,          // sending the greeting throws
    generation: Generation,
    turns: nat -> Enrichment.TurnOutcome)

  /** The status and the `messages` array of the body sent back. */
  datatype Response = Response(status: nat, messages: seq<Value>)

  function GreetingMessages(env: Environment): seq<Value> {
    [ Obj([("text", Str("Hey dear... How was your day?")),
           ("audio", Enrichment.AudioFileToBase64(env.intro0Audio)),
           ("lipsync", Enrichment.ReadJsonTranscript(env.intro0Cues)),
           ("facialExpression", Str("smile")),
           ("animation", Str("Talking_1"))]),
      Obj([("text", Str("I missed you so much... Please don't go for so long!")),
           ("audio", Enrichment.AudioFileToBase64(env.intro1Audio)),
           ("lipsync", Enrichment.ReadJsonTranscript(env.intro1Cues)),
           ("facialExpression", Str("sad")),
           ("animation", Str("Crying"))]) ]
  }

  /** Each of the five greeting fields is read from its own member. */
  predicate GreetingFieldsReadable(ms: seq<(string, Value)>)
    requires |ms| == 5
  {
    Get(ms, "text") == Some(ms[0].1) && Get(ms, "audio") == Some(ms[1].1) &&
    Get(ms, "lipsync") == Some(ms[2].1) && Get(ms, "facialExpression") == Some(ms[3].1) &&
    Get(ms, "animation") == Some(ms[4].1)
  }

  lemma GreetingFields(ms: seq<(string, Value)>)
    requires |ms| == 5
    requires ms[0].0 == "text" && ms[1].0 == "audio" && ms[2].0 == "lipsync"
    requires ms[3].0 == "facialExpression" && ms[4].0 == "animation"
    ensures GreetingFieldsReadable(ms)
  {
    GetFirst(ms, 0, "text");
    GetFirst(ms, 1, "audio");
    GetFirst(ms, 2, "lipsync");
    GetFirst(ms, 3, "facialExpression");
    GetFirst(ms, 4, "animation");
  }

  /** The single turn sent with status 500. */
  const GlobalFallback: Value := Obj([
    ("text", Str("Sorry, something went wrong.")),
    ("facialExpression", Str("sad")),
    ("animation", Str("Crying"))])

  /** Whether the greeting is what gets sent. */
  predicate Greets(message: Option<Value>, env: Environment) {
    Falsy(message) && !env.greetingThrows
  }

  /** Whether the outer `try` of the normal path throws: building the
      prompt or generating the answer fails. Reading the answer and voicing
      the turns catch their own exceptions. */
  predicate ServerError(message: Option<Value>, env: Environment) {
    (message.Some? && ToStringThrows(message.value)) || env.generation.GenerationThrows?
  }

  /** The response to one request: status 500 exactly when the request is
      not greeted and building the prompt or generating the answer throws,
      carrying the one global fallback turn; status 200 otherwise. */
  function Respond(message: Option<Value>, env: Environment): (r: Response)
    ensures r.status == 200 || r.status == 500
    ensures r.status == 500 <==> !Greets(message, env) && ServerError(message, env)
    ensures r.status == 500 ==> r.messages == [GlobalFallback]
  {
    if Greets(message, env) then Response(200, GreetingMessages(env))
    else if ServerError(message, env) then Response(500, [GlobalFallback])
    else
      var planned := ReplyParsing.ParseResponseMessages(env.generation.text);
      Response(200, Enrichment.EnrichedTurns(planned, env.turns))
  }

  /** The handler, step by step. */
  method HandleChat(message: Option<Value>, env: Environment) returns (response: Response)
    ensures response == Respond(message, env)
  {
    if Falsy(message) {
      if !env.greetingThrows {
        response := Response(200, GreetingMessages(env));
        return;
      }
      // the greeting's `try` threw: carry on with the normal path
    }
    if message.Some? && ToStringThrows(message.value) {
      response := Response(500, [GlobalFallback]);
      return;
    }
    match env.generation {
      case GenerationThrows =>
        response := Response(500, [GlobalFallback]);
      case Generated(text) =>
        var planned := ReplyParsing.ParseResponseMessages(text);
        var processed := Enrichment.EnrichTurns(planned, env.turns);
        response := Response(200, processed);
    }
  }

  // ---------------------------------------------------------------------
  // Properties of the response
  // ---------------------------------------------------------------------

  /** A falsy message that is greeted gets exactly the two greeting turns,
      with their texts, expressions and animations, and the intro files
      read by the soft-fail readers. */
  lemma GreetingReply(message: Option<Value>, env: Environment)
    requires Greets(message, env)
    ensures var r := Respond(message, env);
      r.status == 200 && |r.messages| == 2 &&
      r.messages[0].Obj? && r.messages[1].Obj? &&
      Get(r.messages[0].members, "text") == Some(Str("Hey dear... How was your day?")) &&
      Get(r.messages[0].members, "facialExpression") == Some(Str("smile")) &&
      Get(r.messages[0].members, "animation") == Some(Str("Talking_1")) &&
      Get(r.messages[0].members, "audio") == Some(Enrichment.AudioFileToBase64(env.intro0Audio)) &&
      Get(r.messages[0].members, "lipsync") == Some(Enrichment.ReadJsonTranscript(env.intro0Cues)) &&
      Get(r.messages[1].members, "text") == Some(Str("I missed you so much... Please don't go for so long!")) &&
      Get(r.messages[1].members, "facialExpression") == Some(Str("sad")) &&
      Get(r.messages[1].members, "animation") == Some(Str("Crying")) &&
      Get(r.messages[1].members, "audio") == Some(Enrichment.AudioFileToBase64(env.intro1Audio)) &&
      Get(r.messages[1].members, "lipsync") == Some(Enrichment.ReadJsonTranscript(env.intro1Cues))
  {
    var turns := GreetingMessages(env);
    assert Respond(message, env) == Response(200, turns);
    GreetingFields(turns[0].members);
    GreetingFields(turns[1].members);
  }

  /** No falsy value makes the prompt throw. */
  lemma FalsyNeverThrows(message: Option<Value>)
    requires Falsy(message)
    ensures !(message.Some? && ToStringThrows(message.value))
  {
  }

  /** When sending the greeting throws, a falsy message takes the normal
      path like any other: the answer to the prompt is read and voiced, or
      the request fails with 500 when generation throws. */
  lemma FailedGreetingFallsThrough(message: Option<Value>, env: Environment)
    requires Falsy(message) && env.greetingThrows
    ensures env.generation.GenerationThrows? ==> Respond(message, env) == Response(500, [GlobalFallback])
    ensures env.generation.Generated? ==>
      (Respond(message, env) ==
       Response(200, Enrichment.EnrichedTurns(ReplyParsing.ParseResponseMessages(env.generation.text), env.turns)))
  {
    FalsyNeverThrows(message);
  }

  /** A message object with its own `toString` field, at any position,
      fails the request with status 500 before the model is asked
      anything. */
  lemma ToStringFieldFails(v: Value, env: Environment)
    requires v.Obj? && Get(v.members, "toString").Some?
    ensures Respond(Some(v), env) == Response(500, [GlobalFallback])
  {
  }

  /** So does an array message holding, at any depth, such an object: the
      template literal joins the converted elements. */
  lemma {:induction false} ArrayWithToStringFieldFails(items: seq<Value>, i: nat, env: Environment)
    requires i < |items| && items[i].Obj? && Get(items[i].members, "toString").Some?
    ensures Respond(Some(Arr(items)), env) == Response(500, [GlobalFallback])
  {
    assert ToStringThrows(items[i]);
  }

  /** On the normal path, the response has one turn per planned turn, in
      order, each the fallback turn or the planned turn voiced. */
  lemma {:induction false} NormalReply(message: Option<Value>, env: Environment)
    requires !Greets(message, env) && !ServerError(message, env)
    ensures var planned := ReplyParsing.ParseResponseMessages(env.generation.text);
      var r := Respond(message, env);
      r.status == 200 && |r.messages| == |planned| &&
      forall i :: 0 <= i < |planned| ==> r.messages[i] == Enrichment.EnrichTurn(planned[i], env.turns(i))
  {
    var planned := ReplyParsing.ParseResponseMessages(env.generation.text);
    Enrichment.EnrichedTurnsByPosition(planned, env.turns);
  }

  /** A non-empty string message never makes the prompt throw: its
      status depends on generation alone. */
  lemma StringMessageStatus(s: string, env: Environment)
    requires s != ""
    ensures env.generation.Generated? ==> Respond(Some(Str(s)), env).status == 200
    ensures env.generation.GenerationThrows? ==> Respond(Some(Str(s)), env).status == 500
  {
  }
}
