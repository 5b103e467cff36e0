/**
  Voicing the planned turns (the loop of the `/chat` handler in
  index.js): each turn is synthesised to speech, written to
  `audios/message_<i>.wav`, lip-synced by rhubarb, and then given its
  `audio` (the wav as base64) and `lipsync` (rhubarb's cue file) fields;
  a turn whose synthesis, write or lip-sync fails is replaced by a fixed
  fallback turn.

  The speech client, the file system and rhubarb are not modelled: what
  they do for turn `i` is an outcome the caller supplies.
*/
module Enrichment {
  import opened Json
  import JsonLaws

  // ---------------------------------------------------------------------
  // The soft-fail readers
  // ---------------------------------------------------------------------

  /** `audioFileToBase64`: the base64 text of the file, or `null` when it
      cannot be read. `read` is the encoded file, `None` when reading
      fails. */
  function AudioFileToBase64(read: Option<string>): (r: Value)
    ensures read.None? ==> r == Null
    ensures read.Some? ==> r == Str(read.value)
  {
    match read
    case None => Null
    case Some(b) => Str(b)
  }

  /** `readJsonTranscript`: the parsed contents of the file, or `[]` when
      it cannot be read or does not parse. `read` is the file's text,
      `None` when reading fails. */
  function ReadJsonTranscript(read: Option<string>): (r: Value)
    ensures read.None? ==> r == Arr([])
    ensures read.Some? && Parse(read.value).None? ==> r == Arr([])
  {
    match read
    case None => Arr([])
    case Some(text) =>
      match Parse(text)
      case None => Arr([])
      case Some(v) => v
  }

  /** A cue file written as JSON is read back as the value written. */
  lemma TranscriptRoundTrip(cues: Value)
    requires WellFormed(cues)
    ensures ReadJsonTranscript(Some(Serialize(cues))) == cues
  {
    JsonLaws.RoundTrip(cues);
  }

  // ---------------------------------------------------------------------
  // One turn
  // ---------------------------------------------------------------------

  /** What `client.synthesizeSpeech` does: throw, answer without (or with
      a falsy) `audioContent`, or answer with audio. */
  datatype Synthesis = SynthesisThrows | NoAudioContent | AudioContent

  /** Everything outside the program that happens while turn `i` is
      voiced. */
  datatype TurnOutcome = TurnOutcome(
    synthesis: Synthesis,
    writeThrows: bool,          // fs.writeFile of the wav
    lipSyncThrows: bool,        // the rhubarb command
    audioRead: Option<string>,  // the wav, base64-encoded, or a read error
    cueRead: Option<string>)    // message_<i>.json, or a read error

  /** The turn pushed when voicing a turn fails. */
  const TroubleFallback: Value := Obj([
    ("text", Str("I'm having trouble responding right now.")),
    ("facialExpression", Str("sad")),
    ("animation", Str("Crying"))])

  /** Whether the `try` block for a turn throws.
      - `message.text` on `null` throws before synthesis;
      - a failed synthesis, an answer without audio, a failed write and a
        failed lip-sync all throw;
      - the module is strict code, so assigning `audio` to a string,
        number or boolean turn throws; assigning it to an array does
        not.
      So a primitive turn always throws. */
  predicate TurnThrows(message: Value, o: TurnOutcome) {
    !(message.Obj? || message.Arr?) ||
    o.synthesis != AudioContent || o.writeThrows || o.lipSyncThrows
  }

  /** The element pushed onto `processedMessages` for one planned turn:
      the fallback turn exactly when the `try` block throws, otherwise the
      object turn with `audio` and `lipsync` assigned. An array turn takes
      the two assignments as non-index properties, which JSON
      serialisation does not show, so it is sent unchanged. */
  function EnrichTurn(message: Value, o: TurnOutcome): (r: Value)
    ensures r == TroubleFallback <==>
      !(message.Obj? || message.Arr?) ||
      o.synthesis != AudioContent || o.writeThrows || o.lipSyncThrows
    ensures ((message.Obj? || message.Arr?) &&
             o.synthesis == AudioContent && !o.writeThrows && !o.lipSyncThrows) ==>
      (message.Obj? && r.Obj? &&
       Get(r.members, "audio") == Some(AudioFileToBase64(o.audioRead)) &&
       Get(r.members, "lipsync") == Some(ReadJsonTranscript(o.cueRead))) ||
      (message.Arr? && r == message)
  {
    if TurnThrows(message, o) then TroubleFallback
    else if message.Obj? then
      var audio, lipsync := AudioFileToBase64(o.audioRead), ReadJsonTranscript(o.cueRead);
      AudioThenLipsync(message.members, audio, lipsync);
      Obj(Put(Put(message.members, "audio", audio), "lipsync", lipsync))
    else message
  }

  /** Assigning `audio` and then `lipsync` leaves both readable, which the
      fallback turn, having no `audio`, is not. */
  lemma AudioThenLipsync(ms: seq<(string, Value)>, audio: Value, lipsync: Value)
    ensures var enriched := Put(Put(ms, "audio", audio), "lipsync", lipsync);
      Get(enriched, "audio") == Some(audio) && Get(enriched, "lipsync") == Some(lipsync) &&
      Get(TroubleFallback.members, "audio") == None
  {
    var withAudio := Put(ms, "audio", audio);
    assert Get(Put(withAudio, "lipsync", lipsync), "audio") == Get(withAudio, "audio");
    assert KeyIndex(TroubleFallback.members, "audio") == None;
  }

  /** An object turn that is voiced keeps every other field as it was and
      gets `audio` and `lipsync` from the two readers, even when those
      readers soft-fail; it is never the fallback turn, which has no
      `audio`. */
  lemma {:induction false} VoicedTurnIsEnriched(message: Value, o: TurnOutcome)
    requires message.Obj? && !TurnThrows(message, o)
    ensures var r := EnrichTurn(message, o);
      r.Obj? &&
      Get(r.members, "audio") == Some(AudioFileToBase64(o.audioRead)) &&
      Get(r.members, "lipsync") == Some(ReadJsonTranscript(o.cueRead)) &&
      (forall k :: k != "audio" && k != "lipsync" ==> Get(r.members, k) == Get(message.members, k)) &&
      |message.members| <= |r.members| &&
      (forall i :: 0 <= i < |message.members| ==> r.members[i].0 == message.members[i].0) &&
      r != TroubleFallback
  {
    var withAudio := Put(message.members, "audio", AudioFileToBase64(o.audioRead));
    var r := EnrichTurn(message, o);
    assert r.members == Put(withAudio, "lipsync", ReadJsonTranscript(o.cueRead));
    assert Get(r.members, "audio") == Get(withAudio, "audio");
    assert Get(TroubleFallback.members, "audio") == None;
  }

  /** The readers only soft-fail: with the wav and the cue file both
      unreadable, a voiced object turn still carries `audio: null` and
      `lipsync: []`. */
  lemma UnreadableFilesSoftFail(message: Value, o: TurnOutcome)
    requires message.Obj? && !TurnThrows(message, o)
    requires o.audioRead.None? && o.cueRead.None?
    ensures Get(EnrichTurn(message, o).members, "audio") == Some(Null)
    ensures Get(EnrichTurn(message, o).members, "lipsync") == Some(Arr([]))
  {
    VoicedTurnIsEnriched(message, o);
  }

  /** Every pushed turn is the fallback turn, the planned turn with
      `audio` and `lipsync` set, or an unchanged array turn. */
  lemma {:induction false} EnrichedTurnShape(message: Value, o: TurnOutcome)
    ensures var r := EnrichTurn(message, o);
      r == TroubleFallback ||
      (message.Obj? && r.Obj? &&
       Get(r.members, "audio") == Some(AudioFileToBase64(o.audioRead)) &&
       Get(r.members, "lipsync") == Some(ReadJsonTranscript(o.cueRead)) &&
       forall k :: k != "audio" && k != "lipsync" ==> Get(r.members, k) == Get(message.members, k)) ||
      (message.Arr? && r == message)
  {
    if !TurnThrows(message, o) && message.Obj? {
      VoicedTurnIsEnriched(message, o);
    }
  }

  // ---------------------------------------------------------------------
  // The loop
  // ---------------------------------------------------------------------

  /** `processedMessages` after the turns in `planned` have been handled,
      one push per turn, so one output turn per planned turn; the outcome
      of turn `i` is `outcome(i)`. */
  function EnrichedTurns(planned: seq<Value>, outcome: nat -> TurnOutcome): (r: seq<Value>)
    ensures |r| == |planned|
  {
    if planned == [] then []
    else
      var n := |planned| - 1;
      EnrichedTurns(planned[..n], outcome) + [EnrichTurn(planned[n], outcome(n))]
  }

  /** Position `i` of the output holds what became of planned turn `i`. */
  lemma {:induction false} EnrichedTurnsByPosition(planned: seq<Value>, outcome: nat -> TurnOutcome)
    ensures forall i :: 0 <= i < |planned| ==>
      EnrichedTurns(planned, outcome)[i] == EnrichTurn(planned[i], outcome(i))
  {
    if planned != [] {
      var n := |planned| - 1;
      var front := planned[..n];
      EnrichedTurnsByPosition(front, outcome);
      var r := EnrichedTurns(planned, outcome);
      assert r == EnrichedTurns(front, outcome) + [EnrichTurn(planned[n], outcome(n))];
      forall i | 0 <= i < |planned| ensures r[i] == EnrichTurn(planned[i], outcome(i)) {
        if i < n {
          assert front[i] == planned[i];
        }
      }
    }
  }

  /** What happens to one turn does not affect any other: two runs whose
      outcomes differ only at turn `j` agree at every other position. */
  lemma FailureIsIsolated(planned: seq<Value>, o1: nat -> TurnOutcome, o2: nat -> TurnOutcome, j: nat)
    requires forall i: nat :: i != j ==> o1(i) == o2(i)
    ensures forall i :: 0 <= i < |planned| && i != j ==>
      EnrichedTurns(planned, o1)[i] == EnrichedTurns(planned, o2)[i]
  {
    EnrichedTurnsByPosition(planned, o1);
    EnrichedTurnsByPosition(planned, o2);
  }

  /** Handling one more planned turn pushes one more element. */
  lemma EnrichedTurnsStep(planned: seq<Value>, outcome: nat -> TurnOutcome, i: nat)
    requires i < |planned|
    ensures EnrichedTurns(planned[..i + 1], outcome) ==
      EnrichedTurns(planned[..i], outcome) + [EnrichTurn(planned[i], outcome(i))]
  {
    assert planned[..i + 1][..i] == planned[..i];
  }

  /** The `for` loop of the handler: for each planned turn in index order,
      run the `try` block and push the voiced turn, or push the fallback
      turn when the block throws. */
  method EnrichTurns(planned: seq<Value>, outcome: nat -> TurnOutcome) returns (processed: seq<Value>)
    ensures processed == EnrichedTurns(planned, outcome)
  {
    processed := [];
    for i := 0 to |planned|
      invariant processed == EnrichedTurns(planned[..i], outcome)
    {
      var message := planned[i];
      var o := outcome(i);
      var turn := TroubleFallback;
      if !(o.synthesis != AudioContent || o.writeThrows || o.lipSyncThrows) {
        if message.Obj? {
          var members := Put(message.members, "audio", AudioFileToBase64(o.audioRead));
          members := Put(members, "lipsync", ReadJsonTranscript(o.cueRead));
          turn := Obj(members);
        } else if message.Arr? {
          turn := message;
        }
      }
      assert turn == EnrichTurn(planned[i], outcome(i));
      EnrichedTurnsStep(planned, outcome, i);
      processed := processed + [turn];
    }
    assert planned[..|planned|] == planned;
  }
}
