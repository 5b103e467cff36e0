# ai-avatar-backend: the `/chat` response pipeline in Dafny

This project models the response assembly behind `POST /chat` in the
ai-avatar-backend server (`index.js`). It proves properties of that model.
The pipeline has three stages:

- **Reply parsing** (`parseResponseMessages`).
  - It searches the language model's free-form answer for the first fenced
    block matched by `` /```json\s*(\[[\s\S]*?\])\s*```/ ``.
  - It parses group 1 of that match as JSON.
  - A parsed value that is not an array is wrapped into a one-element
    list.
  - A missing answer text, a missing block or a payload that does not
    parse gives the single turn "I'm having trouble understanding that."
- **Turn enrichment** (the `for` loop of the handler).
  - Each planned turn is synthesised to speech, written to a wav file and
    lip-synced by rhubarb.
  - The turn then gets `audio` and `lipsync` fields from two soft-fail
    readers:
    - `audioFileToBase64` gives `null` when the read fails;
    - `readJsonTranscript` gives `[]` when the read or the parse fails.
  - A turn whose block throws is replaced by the turn "I'm having trouble
    responding right now."
- **The handler's branching.**
  - A falsy `message` gets a fixed two-turn greeting.
  - Any other request is planned and enriched, and answered with status
    200.
  - An exception while building the prompt or generating the answer gives
    status 500 with the single turn "Sorry, something went wrong."

The modules are:

- `Json` (`json.dfy`) holds the JSON values the pipeline handles and the
  operations on them:
  - `JSON.parse` as a recursive-descent parser over strings;
  - compact JSON as `JSON.stringify` writes it, as `Serialize`, except
    that a number is written as its lexeme;
  - property read (`Get`) and property assignment (`Put`) on objects,
    which keep JavaScript's insertion order.
- `JsonLaws` (`json_laws.dfy`) proves that parsing inverts serialisation
  for every well-formed value. It also proves that text starting with `[`
  can only parse to an array.
- `ReplyParsing` (`reply_parsing.dfy`) holds the regular-expression
  scanner, its proof against a direct reading of the pattern under
  ECMAScript's leftmost-then-lazy matching, and `ParseResponseMessages`.
- `Enrichment` (`enrichment.dfy`) holds the soft-fail readers, the
  per-turn step `EnrichTurn`, the function `EnrichedTurns` that specifies
  the loop, and the loop itself (`EnrichTurns`).
- `Chat` (`chat.dfy`) holds the handler as a method (`HandleChat`), its
  specification `Respond`, and the properties of the response.

Every external service is a parameter. This covers the language model,
the speech client, the file system, rhubarb and sending the greeting:
- `Chat.Environment` says what these do during one request;
- `Enrichment.TurnOutcome` says what they do for turn `i`.

What the code does that its prompt does not suggest:

- **No cap on the number of turns.** The "maximum 3 messages" rule and the
  lists of expressions and animations are only instructions in the prompt.
  The code neither caps the number of turns nor coerces values. A fenced
  `[]` gives a 200 response with no turns at all
  (`ReplyParsing.EmptyBlockGivesNoTurns`).
- **The non-array wrap never happens.** A parsed non-array payload is
  wrapped into a list, not replaced by the fallback. Because group 1
  always starts with `[`, a payload that parses is always an array.
- **A failed greeting falls through.** If sending the greeting throws, the
  `catch` only logs. The request then continues down the normal path with
  the falsy message.
- **Partial enrichment reaches the caller.** An enriched turn always
  carries both `audio` and `lipsync`, but these may be `null` and `[]`.
  Unreadable files never turn a voiced turn into the fallback.
- **Status 500 without a model call.** A `message` object with its own
  `toString` field makes the prompt's template literal throw a TypeError.
  So does an array that contains such an object. Such a request gets
  status 500 before the model is asked anything.

Turns are processed as in strict-mode JavaScript (the file is an ES
module):
- a `null` turn fails at `message.text`;
- a string, number or boolean turn fails when `audio` is assigned to it;
- an array turn takes both assignments as non-index properties, which
  serialisation drops, so it is sent unchanged.

## Model

| member | source | states |
|---|---|---|
| Json.KeyIndex | index.js:125 | a property read finds the first member with the key, and finds nothing exactly when no member has it |
| Json.Put | index.js:173-176 | after `o[k] = v`, reading `k` gives `v`, every other key reads as before, existing keys keep their positions, a new key is appended, and distinct keys stay distinct |
| Json.Parse | index.js:67 | every value `JSON.parse` produces is well formed (valid number lexemes, one member per key); with `JsonLaws.RoundTrip`, the well-formed values are exactly the parse results |
| JsonLaws.RoundTrip | index.js:67 | `JSON.parse` of the compact serialisation of any well-formed value gives that value back |
| JsonLaws.BracketParsesToArray | index.js:67-71 | text that starts with `[` can only parse to an array |
| ReplyParsing.SpaceEnd | index.js:64 | greedy `\s*` stops at the first position that is not ECMAScript white space or a line terminator, and consumes only such characters |
| ReplyParsing.FindClose | index.js:64 | the lazy `[\s\S]*?\]` closes at the first `]` followed by white space and a fence, and reports none when no such `]` exists |
| ReplyParsing.FindMatch | index.js:64 | the match found is a match, starts no later than any other match, and among matches at that start closes earliest; none is found only when no match exists |
| ReplyParsing.ClosesAtIff | index.js:64 | the scanner's closing test holds exactly when `]`, some run of `\s` and "```" follow in that order |
| ReplyParsing.IsMatchIff | index.js:64 | the scanner's notion of a match coincides with a direct reading of the pattern: fence, any `\s` run, `[`, anything, `]`, any `\s` run, fence |
| ReplyParsing.FoundIsSelected | index.js:64 | the match found is the leftmost match of the pattern, with the shortest lazy part among matches at that start |
| ReplyParsing.SelectedIsFound | index.js:64 | the leftmost, shortest match of the pattern is the match found |
| ReplyParsing.NotFoundIff | index.js:64-65 | no match is found exactly when the pattern matches nowhere in the text |
| ReplyParsing.PayloadIsBracketed | index.js:64 | group 1 is at least two characters long, begins with `[` and ends with `]` |
| ReplyParsing.ParseResponseMessages | index.js:62-84 | an answer whose text is undefined gives exactly the one "trouble understanding" turn; every result is that single fallback turn or the elements of the array parsed from the block the regular expression selects |
| ReplyParsing.NoBlockGivesFallback | index.js:64-83 | text in which the pattern matches nowhere gives exactly the one "trouble understanding" turn |
| ReplyParsing.UnparsableBlockGivesFallback | index.js:67-83 | when the selected payload does not parse, the result is the same single fallback turn |
| ReplyParsing.ParsedBlockGivesItsElements | index.js:67-73 | when the selected payload parses, the value is an array and the result is exactly its elements in order, including zero elements; the one-element wrap never fires |
| ReplyParsing.FencedReplyRoundTrip | index.js:62-84 | an answer with backtick-free prose, then a fenced block holding the serialised turns, then anything at all, is read back as exactly those turns |
| ReplyParsing.EmptyBlockGivesNoTurns | index.js:62-84 | a fenced `[]` is read as zero turns |
| Enrichment.ReadJsonTranscript | index.js:28-36 | a failed read gives `[]`, and so does text that `JSON.parse` rejects |
| Enrichment.TranscriptRoundTrip | index.js:28-36 | a cue file holding serialised JSON is read back as the value that was serialised |
| Enrichment.EnrichTurn | index.js:154-193 | the pushed turn is the "trouble responding" turn exactly when the turn is null, a string, a number or a boolean, or synthesis throws or gives no audio, or the write fails, or the lip-sync fails; otherwise it is the object turn with `audio` and `lipsync` from the two readers, or the array turn unchanged |
| Enrichment.VoicedTurnIsEnriched | index.js:166-178 | a voiced object turn gets `audio` and `lipsync` from the two readers and keeps every other field and every existing key position; it is never the fallback turn |
| Enrichment.UnreadableFilesSoftFail | index.js:173-176 | with both files unreadable, a voiced object turn carries `audio: null` and `lipsync: []` instead of becoming the fallback |
| Enrichment.EnrichedTurnShape | index.js:154-193 | each pushed turn is the fallback, the planned object with `audio` and `lipsync` set and other fields untouched, or an unchanged array turn |
| Enrichment.EnrichedTurns | index.js:148-194 | the loop pushes exactly one turn per planned turn |
| Enrichment.EnrichedTurnsByPosition | index.js:148-194 | output position `i` holds what became of planned turn `i` under the outcome of turn `i` |
| Enrichment.FailureIsIsolated | index.js:149-194 | two runs whose outcomes differ only at turn `j` agree at every other position |
| Enrichment.EnrichTurns | index.js:148-194 | the loop, each try/catch step written out, leaves in `processedMessages` exactly the specified sequence of enriched or fallback turns |
| Chat.HandleChat | index.js:91-208 | the handler's response, branch by branch, is `Respond`: the greeting, the 500 fallback, or 200 with the enriched planned turns |
| Chat.Falsy | index.js:95 | objects and arrays, even empty ones, are never falsy; a string is falsy exactly when it is empty |
| Chat.ToStringThrows | index.js:125 | only an object or an array can make the template literal throw; an object throws exactly when it has its own `toString` member |
| Chat.Respond | index.js:91-208 | status 500 happens exactly when the request is not greeted and the prompt or the generation throws; a 500 carries only the "Sorry, something went wrong." turn; every other response is 200 |
| Chat.GreetingReply | index.js:95-115 | a greeted request gets status 200 and exactly two turns: "Hey dear... How was your day?" with smile and Talking_1, then "I missed you so much... Please don't go for so long!" with sad and Crying, each with the intro files read by the soft-fail readers |
| Chat.FalsyNeverThrows | index.js:95-125 | no falsy message makes the prompt's template literal throw |
| Chat.FailedGreetingFallsThrough | index.js:116-145 | when sending the greeting throws, a falsy message is answered by the normal path: 500 if generation throws, otherwise 200 with the enriched planned turns |
| Chat.ToStringFieldFails | index.js:123-207 | a message object with its own `toString` field, at any position, is answered with status 500 and the global fallback turn |
| Chat.ArrayWithToStringFieldFails | index.js:123-207 | an array message with an element that has its own `toString` field is answered with status 500 and the global fallback turn |
| Chat.NormalReply | index.js:145-196 | on the normal path, the response has status 200 and one turn per planned turn, position by position |
| Chat.StringMessageStatus | index.js:121-208 | a non-empty string message never makes the prompt throw: it is answered with status 200 unless generation throws, in which case with 500 |

## Left out

- The Express application is not modelled: the JSON body parser, CORS,
  `GET /`, the port and `app.listen`. The request is reduced to the value
  of `req.body.message`, where `None` means `undefined`.
- The language model is not modelled.
  - Its call becomes `Chat.Generation`: it throws, or it returns a text
    that may be undefined.
  - The prompt is an opaque constant. Only the conversion of `message` to
    a string inside it is modelled.
- The speech client, `fs.writeFile` and the rhubarb command are external.
  - They become the flags of `Enrichment.TurnOutcome`, one outcome per
    turn index.
  - What synthesis does with `message.text` is part of that outcome.
- File reads, UTF-8 decoding and base64 encoding are not modelled.
  - The readers take the file's content, or `None` for a failed read.
  - The audio content is taken already encoded.
- `res.send` throwing on the normal and 500 paths is not modelled. On the
  greeting path it is the flag `greetingThrows`.
- `console.error` logging is not modelled.
- `src/hooks/useSpeechRecognition.jsx` (browser speech-recognition UI) is
  not part of this model.
- Requests run one at a time. Concurrent requests sharing the
  `audios/message_<i>` files are not modelled.
- Object mutation is modelled as a value update. `message.audio = ...` and
  `message.lipsync = ...` produce a new object value. No other reference
  to a planned turn exists, so this cannot be observed.
- Enrichment.AudioFileToBase64: only the soft-fail wrapper around the
  read is modelled: `null` for a failed read, the given (already encoded)
  text otherwise. Its effect on turns is stated by
  `Enrichment.UnreadableFilesSoftFail` and `Chat.GreetingReply`.
- Falsy: a number counts as zero only when its digits are zero. A literal
  such as `1e-400`, which underflows to `0` in JavaScript, is treated as
  truthy.
- Json.ParseValue: these JSON.parse behaviours are not modelled:
  - a `\u` escape of a UTF-16 surrogate half is rejected here, though
    `JSON.parse` accepts it;
  - a number is kept as its validated lexeme, not as a double, and
    `Serialize` writes that lexeme back (`1.0` stays `1.0`, where
    `JSON.stringify` writes `1`);
  - strings are sequences of code points, not UTF-16 code units.
- Json.Put: objects keep insertion order, whereas JavaScript lists
  integer-like keys first. A `__proto__` key is treated as an ordinary
  key.
- ReplyParsing.FencedReplyRoundTrip: stated only for prose and payloads
  free of backticks. A backtick inside a string of the payload could
  close the fence early.
