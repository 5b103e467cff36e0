/**
  Reading the reply turns out of the language model's free-form answer
  (`parseResponseMessages`, index.js): find the first fenced block
  matched by the regular expression

      /```json\s*(\[[\s\S]*?\])\s*```/

  parse its group 1 as JSON, and fall back to one fixed turn when there is
  no such block or the block does not parse.
*/
module ReplyParsing {
  import opened Json
  import JsonLaws

  /** `\s` in an ECMAScript regular expression: the WhiteSpace and
      LineTerminator code points. */
  predicate IsRegexSpace(c: char) {
    c == '\t' || c == '\n' || c == '\U{B}' || c == '\U{C}' || c == '\r' ||
    c == ' ' || c == '\U{A0}' || c == '\U{1680}' || ('\U{2000}' <= c <= '\U{200A}') ||
    c == '\U{2028}' || c == '\U{2029}' || c == '\U{202F}' || c == '\U{205F}' ||
    c == '\U{3000}' || c == '\U{FEFF}'
  }

  const OpenFence: string := "```json"
  const Fence: string := "```"

  predicate HasAt(s: string, i: nat, w: string) {
    i + |w| <= |s| && s[i..i + |w|] == w
  }

  /** The end of the run of `\s` characters that starts at `i`: what a
      greedy `\s*` consumes. */
  function SpaceEnd(s: string, i: nat): (j: nat)
    requires i <= |s|
    ensures i <= j <= |s|
    ensures forall t :: i <= t < j ==> IsRegexSpace(s[t])
    ensures j == |s| || !IsRegexSpace(s[j])
    decreases |s| - i
  {
    if i < |s| && IsRegexSpace(s[i]) then SpaceEnd(s, i + 1) else i
  }

  /** One match of the expression: where it starts, and the `[` and `]`
      that begin and end group 1. */
  datatype Match = Match(start: nat, open: nat, close: nat)

  /** "```json", the spaces after it and a `[`. */
  predicate OpensAt(s: string, p: nat) {
    HasAt(s, p, OpenFence) && SpaceEnd(s, p + |OpenFence|) < |s| && s[SpaceEnd(s, p + |OpenFence|)] == '['
  }

  /** A `]`, spaces and a closing "```". */
  predicate ClosesAt(s: string, j: nat) {
    j < |s| && s[j] == ']' && HasAt(s, SpaceEnd(s, j + 1), Fence)
  }

  predicate IsMatch(s: string, m: Match) {
    OpensAt(s, m.start) && m.open == SpaceEnd(s, m.start + |OpenFence|) &&
    m.open < m.close && ClosesAt(s, m.close)
  }

  /** The first position at or after `j` where the match can close: the
      lazy `[\s\S]*?` stops at the first `]` that is followed by spaces
      and a fence. */
  function FindClose(s: string, j: nat): (r: Option<nat>)
    requires j <= |s|
    ensures r.Some? ==> j <= r.value && ClosesAt(s, r.value)
    ensures r.Some? ==> forall t :: j <= t < r.value ==> !ClosesAt(s, t)
    ensures r.None? ==> forall t :: j <= t < |s| ==> !ClosesAt(s, t)
    decreases |s| - j
  {
    if j == |s| then None
    else if ClosesAt(s, j) then Some(j)
    else FindClose(s, j + 1)
  }

  /** The leftmost match that starts at or after `p`, closed as early as
      possible. */
  function FindMatch(s: string, p: nat): (r: Option<Match>)
    requires p <= |s|
    ensures r.Some? ==> IsMatch(s, r.value) && p <= r.value.start
    ensures r.Some? ==> forall m :: IsMatch(s, m) && p <= m.start ==>
      r.value.start < m.start || (r.value.start == m.start && r.value.close <= m.close)
    ensures r.None? ==> forall m :: IsMatch(s, m) ==> m.start < p
    decreases |s| - p
  {
    if p == |s| then None
    else if OpensAt(s, p) then
      var k := SpaceEnd(s, p + |OpenFence|);
      match FindClose(s, k + 1)
      case Some(j) => Some(Match(p, k, j))
      case None => FindMatch(s, p + 1)
    else FindMatch(s, p + 1)
  }

  /** `s.match(re)`, reduced to the positions of the match. */
  function RegexMatch(s: string): Option<Match> {
    FindMatch(s, 0)
  }

  /** Group 1 of a match: the text from the `[` to the `]`. */
  function Payload(s: string, m: Match): string
    requires IsMatch(s, m)
  {
    s[m.open..m.close + 1]
  }

  // ---------------------------------------------------------------------
  // The regular expression, read directly
  // ---------------------------------------------------------------------

  ghost predicate SpaceRun(s: string, i: nat, n: nat) {
    i + n <= |s| && forall t :: i <= t < i + n ==> IsRegexSpace(s[t])
  }

  /** The expression matches `s` at `p` with group 1 equal to `s[k..j+1]`:
      "```json", some `\s` characters, `[`, anything, `]`, some `\s`
      characters, "```". */
  ghost predicate PatternMatches(s: string, p: nat, k: nat, j: nat) {
    HasAt(s, p, OpenFence) && p + |OpenFence| <= k && SpaceRun(s, p + |OpenFence|, k - (p + |OpenFence|)) &&
    k < j < |s| && s[k] == '[' && s[j] == ']' &&
    exists n {:trigger SpaceRun(s, j + 1, n)} :: SpaceRun(s, j + 1, n) && HasAt(s, j + 1 + n, Fence)
  }

  /** The match `String.prototype.match` reports: the one that starts
      first and, among those, the one whose lazy part is shortest. */
  ghost predicate Selected(s: string, p: nat, k: nat, j: nat) {
    PatternMatches(s, p, k, j) &&
    (forall p', k', j' :: PatternMatches(s, p', k', j') ==> p <= p') &&
    (forall j' :: PatternMatches(s, p, k, j') ==> j <= j')
  }

  lemma ClosesAtIff(s: string, j: nat)
    ensures ClosesAt(s, j) <==>
      j < |s| && s[j] == ']' && exists n {:trigger SpaceRun(s, j + 1, n)} :: SpaceRun(s, j + 1, n) && HasAt(s, j + 1 + n, Fence)
  {
    if j < |s| && s[j] == ']' {
      var e := SpaceEnd(s, j + 1);
      if HasAt(s, e, Fence) {
        assert SpaceRun(s, j + 1, e - (j + 1));
      }
      if n {:trigger SpaceRun(s, j + 1, n)} :| SpaceRun(s, j + 1, n) && HasAt(s, j + 1 + n, Fence) {
        assert s[j + 1 + n] == Fence[0];
      }
    }
  }

  lemma IsMatchIff(s: string, p: nat, k: nat, j: nat)
    ensures IsMatch(s, Match(p, k, j)) <==> PatternMatches(s, p, k, j)
  {
    ClosesAtIff(s, j);
    if HasAt(s, p, OpenFence) && p + |OpenFence| <= k && SpaceRun(s, p + |OpenFence|, k - (p + |OpenFence|)) && k < |s| && s[k] == '[' {
      var e := SpaceEnd(s, p + |OpenFence|);
    }
  }

  /** The match `RegexMatch` finds is the one ECMAScript selects. */
  lemma FoundIsSelected(s: string)
    requires RegexMatch(s).Some?
    ensures var m := RegexMatch(s).value; Selected(s, m.start, m.open, m.close)
  {
    var m := RegexMatch(s).value;
    IsMatchIff(s, m.start, m.open, m.close);
    forall p', k', j' | PatternMatches(s, p', k', j') ensures m.start <= p' {
      IsMatchIff(s, p', k', j');
    }
    forall j' | PatternMatches(s, m.start, m.open, j') ensures m.close <= j' {
      IsMatchIff(s, m.start, m.open, j');
    }
  }

  /** The match ECMAScript selects is the one `RegexMatch` finds. */
  lemma SelectedIsFound(s: string, p: nat, k: nat, j: nat)
    requires Selected(s, p, k, j)
    ensures RegexMatch(s) == Some(Match(p, k, j))
  {
    IsMatchIff(s, p, k, j);
    assert IsMatch(s, Match(p, k, j));
    var m := RegexMatch(s).value;
    FoundIsSelected(s);
    assert m.start == p;
    assert m.open == k;
    assert PatternMatches(s, p, k, m.close);
  }

  /** `RegexMatch` reports no match exactly when the expression matches
      nowhere. */
  lemma NotFoundIff(s: string)
    ensures RegexMatch(s).None? <==> forall p, k, j :: !PatternMatches(s, p, k, j)
  {
    if RegexMatch(s).None? {
      forall p, k, j ensures !PatternMatches(s, p, k, j) {
        IsMatchIff(s, p, k, j);
      }
    } else {
      FoundIsSelected(s);
    }
  }

  // ---------------------------------------------------------------------
  // parseResponseMessages
  // ---------------------------------------------------------------------

  /** The turn returned when the answer holds no usable block. */
  const UnderstandingFallback: Value := Obj([
    ("text", Str("I'm having trouble understanding that.")),
    ("facialExpression", Str("default")),
    ("animation", Str("Talking_1"))])

  /** The planned turns read from the model's answer; `None` stands for an
      answer whose `text` is `undefined`, on which `.match` throws inside
      the same `try`. A parsed value that is not an array would be wrapped
      into a list of one, but a payload that parses is always an array:
      the result is the fallback turn or the elements of the array in the
      block `RegexMatch` finds (the one ECMAScript selects, by
      `FoundIsSelected`). */
  function ParseResponseMessages(responseText: Option<string>): (r: seq<Value>)
    ensures responseText.None? ==> r == [UnderstandingFallback]
    ensures r == [UnderstandingFallback] ||
      (responseText.Some? && RegexMatch(responseText.value).Some? &&
       Parse(Payload(responseText.value, RegexMatch(responseText.value).value)) == Some(Arr(r)))
  {
    match responseText
    case None => [UnderstandingFallback]
    case Some(s) =>
      match RegexMatch(s)
      case None => [UnderstandingFallback]
      case Some(m) =>
        match Parse(Payload(s, m))
        case None => [UnderstandingFallback]
        case Some(v) =>
          JsonLaws.BracketParsesToArray(Payload(s, m));
          if v.Arr? then v.items else [v]
  }

  /** Group 1 always runs from a `[` to a `]`. */
  lemma PayloadIsBracketed(s: string)
    requires RegexMatch(s).Some?
    ensures var m := RegexMatch(s).value;
      |Payload(s, m)| >= 2 && Payload(s, m)[0] == '[' && Payload(s, m)[|Payload(s, m)| - 1] == ']'
  {
  }

  /** The selected match is found, and its group 1 is `s[k..j+1]`. */
  lemma SelectedPayload(s: string, p: nat, k: nat, j: nat)
    requires Selected(s, p, k, j)
    ensures RegexMatch(s) == Some(Match(p, k, j))
    ensures Payload(s, Match(p, k, j)) == s[k..j + 1]
  {
    SelectedIsFound(s, p, k, j);
  }

  lemma ParsedPayload(s: string, m: Match, v: Value)
    requires RegexMatch(s) == Some(m) && Parse(Payload(s, m)) == Some(v) && v.Arr?
    ensures ParseResponseMessages(Some(s)) == v.items
  {
  }

  /** No block, no payload: the single fallback turn. */
  lemma NoBlockGivesFallback(s: string)
    requires forall p, k, j :: !PatternMatches(s, p, k, j)
    ensures ParseResponseMessages(Some(s)) == [UnderstandingFallback]
  {
    NotFoundIff(s);
  }

  /** A payload that `JSON.parse` rejects gives the same single fallback
      turn. */
  lemma UnparsableBlockGivesFallback(s: string, p: nat, k: nat, j: nat)
    requires Selected(s, p, k, j)
    requires Parse(s[k..j + 1]) == None
    ensures ParseResponseMessages(Some(s)) == [UnderstandingFallback]
  {
    SelectedPayload(s, p, k, j);
  }

  /** A payload that parses is an array (it starts with `[`), so the
      one-element wrap never happens: the turns are its elements, in
      order, however many there are. */
  lemma ParsedBlockGivesItsElements(s: string, p: nat, k: nat, j: nat, v: Value)
    requires Selected(s, p, k, j)
    requires Parse(s[k..j + 1]) == Some(v)
    ensures v.Arr?
    ensures ParseResponseMessages(Some(s)) == v.items
  {
    SelectedPayload(s, p, k, j);
    JsonLaws.BracketParsesToArray(s[k..j + 1]);
    ParsedPayload(s, RegexMatch(s).value, v);
  }

  // ---------------------------------------------------------------------
  // Round trip: a reply written the way the prompt asks is read back
  // ---------------------------------------------------------------------

  predicate NoBacktick(s: string) {
    forall i :: 0 <= i < |s| ==> s[i] != '`'
  }

  /** A model answer that writes the turns as a compact JSON array in a
      fenced block after some prose. */
  function FencedReply(prose: string, turns: seq<Value>, trailer: string): string {
    prose + OpenFence + "\n" + Serialize(Arr(turns)) + "\n" + Fence + trailer
  }

  /** A match with nothing opening before it and nothing closing inside it
      is the one found. */
  lemma FirstMatch(s: string, m: Match)
    requires IsMatch(s, m)
    requires forall q: nat :: q < m.start ==> !OpensAt(s, q)
    requires forall t: nat :: m.open < t < m.close ==> !ClosesAt(s, t)
    ensures RegexMatch(s) == Some(m)
  {
    var r := RegexMatch(s).value;
    assert r.start == m.start;
  }

  /** Where the pieces of a fenced reply sit. */
  lemma FencedLayout(prose: string, body: string, trailer: string)
    ensures var s := prose + OpenFence + "\n" + body + "\n" + Fence + trailer;
      var k := |prose| + |OpenFence| + 1;
      |s| == k + |body| + 4 + |trailer| &&
      (forall i :: 0 <= i < |prose| ==> s[i] == prose[i]) &&
      HasAt(s, |prose|, OpenFence) &&
      s[k - 1] == '\n' &&
      s[k..k + |body|] == body &&
      (forall i :: 0 <= i < |body| ==> s[k + i] == body[i]) &&
      s[k + |body|] == '\n' &&
      HasAt(s, k + |body| + 1, Fence)
  {
    var s := prose + OpenFence + "\n" + body + "\n" + Fence + trailer;
    var k := |prose| + |OpenFence| + 1;
    assert s[|prose|..|prose| + |OpenFence|] == OpenFence;
    assert s[k..k + |body|] == body;
    assert s[k + |body| + 1..k + |body| + 4] == Fence;
  }

  lemma NothingOpensInProse(s: string, prose: string)
    requires |prose| <= |s| && forall i :: 0 <= i < |prose| ==> s[i] == prose[i]
    requires NoBacktick(prose)
    ensures forall q: nat :: q < |prose| ==> !OpensAt(s, q)
  {
    forall q: nat | q < |prose| ensures !HasAt(s, q, OpenFence) {
      if q + |OpenFence| <= |s| {
        assert s[q..q + |OpenFence|][0] == s[q] == prose[q];
      }
    }
  }

  lemma OpensAfterNewline(s: string, p: nat)
    requires HasAt(s, p, OpenFence)
    requires p + |OpenFence| + 1 < |s| && s[p + |OpenFence|] == '\n' && s[p + |OpenFence| + 1] == '['
    ensures OpensAt(s, p) && SpaceEnd(s, p + |OpenFence|) == p + |OpenFence| + 1
  {
    assert SpaceEnd(s, p + |OpenFence| + 1) == p + |OpenFence| + 1;
  }

  lemma ClosesBeforeNewline(s: string, j: nat)
    requires j + 1 < |s| && s[j] == ']' && s[j + 1] == '\n' && HasAt(s, j + 2, Fence)
    ensures ClosesAt(s, j)
  {
    assert s[j + 2..j + 5][0] == s[j + 2];
    assert SpaceEnd(s, j + 2) == j + 2;
  }

  /** No `]` inside a backtick-free body that ends in `]` can close the
      match. */
  lemma NothingClosesInBody(s: string, k: nat, body: string)
    requires |body| >= 1 && body[|body| - 1] == ']' && NoBacktick(body)
    requires k + |body| <= |s| && forall i :: 0 <= i < |body| ==> s[k + i] == body[i]
    ensures forall t: nat :: k < t < k + |body| - 1 ==> !ClosesAt(s, t)
  {
    var j := k + |body| - 1;
    assert s[j] == body[|body| - 1];
    forall t: nat | k < t < j && s[t] == ']' ensures !HasAt(s, SpaceEnd(s, t + 1), Fence) {
      var e := SpaceEnd(s, t + 1);
      assert e <= j;
      if e + |Fence| <= |s| {
        assert s[e..e + |Fence|][0] == s[e] == body[e - k];
      }
    }
  }

  /** Whatever follows the block, the turns written in it are exactly the
      turns read back, provided the prose before it and the block itself
      contain no backtick. */
  lemma FencedReplyRoundTrip(prose: string, turns: seq<Value>, trailer: string)
    requires WellFormed(Arr(turns))
    requires NoBacktick(prose) && NoBacktick(Serialize(Arr(turns)))
    ensures ParseResponseMessages(Some(FencedReply(prose, turns, trailer))) == turns
  {
    var body := Serialize(Arr(turns));
    var s := FencedReply(prose, turns, trailer);
    var p := |prose|;
    var k := p + |OpenFence| + 1;
    var j := k + |body| - 1;
    JsonLaws.SerializedStart(Arr(turns));
    assert body[0] == '[' && body[|body| - 1] == ']';
    FencedLayout(prose, body, trailer);
    assert s[k] == body[0];
    assert s[j] == body[|body| - 1];
    NothingOpensInProse(s, prose);
    OpensAfterNewline(s, p);
    NothingClosesInBody(s, k, body);
    ClosesBeforeNewline(s, j);
    var m := Match(p, k, j);
    FirstMatch(s, m);
    assert Payload(s, m) == body;
    JsonLaws.RoundTrip(Arr(turns));
  }

  /** A fenced empty array is read as no turns at all: nothing imposes a
      lower (or upper) bound on the number of turns. */
  lemma EmptyBlockGivesNoTurns()
    ensures ParseResponseMessages(Some("```json\n[]\n```")) == []
  {
    assert Serialize(Arr([])) == "[]";
    assert FencedReply("", [], "") == "```json\n[]\n```";
    FencedReplyRoundTrip("", [], "");
  }
}
