/**
  JSON values as `JSON.parse` produces them and `JSON.stringify` writes them
  (except that a number is written as its lexeme, not as the shortest form
  of its double):
  the part of RFC 8259 (and of ECMAScript's JSON object) that the reply
  pipeline relies on. The parser works on suffixes: every parse function
  takes the text still to be read and returns the value together with the
  text that follows it.
*/
module Json {

  datatype Option<+T> = None | Some(value: T)

  /** A parsed JSON value. A number keeps its lexeme; an object keeps one
      member per key, in the order in which the keys first appeared. */
  datatype Value =
    | Null
    | Bool(b: bool)
    | Num(lexeme: string)
    | Str(s: string)
    | Arr(items: seq<Value>)
    | Obj(members: seq<(string, Value)>)

  // ---------------------------------------------------------------------
  // Object members: lookup and JavaScript property assignment
  // ---------------------------------------------------------------------

  /** The position of the member named `k`, if there is one. */
  function KeyIndex(ms: seq<(string, Value)>, k: string): (r: Option<nat>)
    ensures r.Some? ==> r.value < |ms| && ms[r.value].0 == k
    ensures r.Some? ==> forall i :: 0 <= i < r.value ==> ms[i].0 != k
    ensures r.None? <==> forall i :: 0 <= i < |ms| ==> ms[i].0 != k
  {
    if ms == [] then None
    else if ms[0].0 == k then Some(0)
    else match KeyIndex(ms[1..], k)
      case None => None
      case Some(i) => Some(i + 1)
  }

  ghost predicate DistinctKeys(ms: seq<(string, Value)>) {
    forall i, j :: 0 <= i < j < |ms| ==> ms[i].0 != ms[j].0
  }

  /** Property read `o[k]`; `None` stands for `undefined`. */
  function Get(ms: seq<(string, Value)>, k: string): Option<Value> {
    match KeyIndex(ms, k)
    case None => None
    case Some(i) => Some(ms[i].1)
  }

  /** The property read finds the first member with the key. */
  lemma GetFirst(ms: seq<(string, Value)>, i: nat, k: string)
    requires i < |ms| && ms[i].0 == k
    requires forall j :: 0 <= j < i ==> ms[j].0 != k
    ensures Get(ms, k) == Some(ms[i].1)
  {
    var r := KeyIndex(ms, k);
    assert r.Some?;
    assert r.value == i;
  }

  /** Property assignment `o[k] = v` on a plain object: an existing
      property keeps its position and takes the new value, a new one is
      appended after the others. */
  function Put(ms: seq<(string, Value)>, k: string, v: Value): (r: seq<(string, Value)>)
    ensures Get(r, k) == Some(v)
    ensures forall k' :: k' != k ==> Get(r, k') == Get(ms, k')
    ensures |ms| <= |r| && forall i :: 0 <= i < |ms| ==> r[i].0 == ms[i].0
    ensures KeyIndex(ms, k).None? ==> r == ms + [(k, v)]
    ensures DistinctKeys(ms) ==> DistinctKeys(r)
  {
    match KeyIndex(ms, k)
    case Some(i) =>
      var r := ms[i := (k, v)];
      assert forall k' :: KeyIndex(r, k') == KeyIndex(ms, k') by {
        forall k' ensures KeyIndex(r, k') == KeyIndex(ms, k') {
          SameKeysSameIndex(ms, r, k');
        }
      }
      r
    case None =>
      var r := ms + [(k, v)];
      assert KeyIndex(r, k) == Some(|ms|) by {
        assert r[|ms|].0 == k;
      }
      assert forall k' :: k' != k ==> KeyIndex(r, k') == KeyIndex(ms, k') by {
        forall k' | k' != k ensures KeyIndex(r, k') == KeyIndex(ms, k') {
          if KeyIndex(ms, k').Some? {
            SameKeysPrefixIndex(ms, r, k');
          }
        }
      }
      r
  }

  lemma {:induction false} SameKeysSameIndex(ms: seq<(string, Value)>, ns: seq<(string, Value)>, k: string)
    requires |ms| == |ns| && forall i :: 0 <= i < |ms| ==> ms[i].0 == ns[i].0
    ensures KeyIndex(ms, k) == KeyIndex(ns, k)
  {
    if ms != [] && ms[0].0 != k {
      SameKeysSameIndex(ms[1..], ns[1..], k);
    }
  }

  lemma {:induction false} SameKeysPrefixIndex(ms: seq<(string, Value)>, ns: seq<(string, Value)>, k: string)
    requires |ms| <= |ns| && forall i :: 0 <= i < |ms| ==> ms[i].0 == ns[i].0
    requires KeyIndex(ms, k).Some?
    ensures KeyIndex(ns, k) == KeyIndex(ms, k)
  {
    if ms[0].0 != k {
      SameKeysPrefixIndex(ms[1..], ns[1..], k);
    }
  }

  // ---------------------------------------------------------------------
  // Lexical classes
  // ---------------------------------------------------------------------

  /** Insignificant whitespace of RFC 8259, section 2. */
  predicate IsSpace(c: char) {
    c == ' ' || c == '\t' || c == '\n' || c == '\r'
  }

  predicate IsDigit(c: char) {
    '0' <= c <= '9'
  }

  /** Characters that can occur in a number lexeme. */
  predicate IsNumberChar(c: char) {
    IsDigit(c) || c == '-' || c == '+' || c == '.' || c == 'e' || c == 'E'
  }

  predicate AllDigits(s: string) {
    forall i :: 0 <= i < |s| ==> IsDigit(s[i])
  }

  function SkipSpace(s: string): (r: string)
    ensures |r| <= |s| && r == s[|s| - |r|..]
    ensures r == [] || !IsSpace(r[0])
    ensures forall i :: 0 <= i < |s| - |r| ==> IsSpace(s[i])
  {
    if s != [] && IsSpace(s[0]) then SkipSpace(s[1..]) else s
  }

  /** Length of the longest prefix made of digits. */
  function DigitSpan(s: string): (n: nat)
    ensures n <= |s| && AllDigits(s[..n])
    ensures n < |s| ==> !IsDigit(s[n])
  {
    if s != [] && IsDigit(s[0]) then
      var n := 1 + DigitSpan(s[1..]);
      assert s[..n] == [s[0]] + s[1..][..n - 1];
      n
    else 0
  }

  /** Length of the longest prefix made of number characters. */
  function NumberSpan(s: string): (n: nat)
    ensures n <= |s| && forall i :: 0 <= i < n ==> IsNumberChar(s[i])
    ensures n < |s| ==> !IsNumberChar(s[n])
  {
    if s != [] && IsNumberChar(s[0]) then 1 + NumberSpan(s[1..]) else 0
  }

  // ---------------------------------------------------------------------
  // Number grammar: -? (0 | [1-9][0-9]*) (. [0-9]+)? ([eE] [+-]? [0-9]+)?
  // ---------------------------------------------------------------------

  predicate ValidExponent(t: string) {
    t == [] ||
    ((t[0] == 'e' || t[0] == 'E') &&
     var u := if |t| > 1 && (t[1] == '+' || t[1] == '-') then t[2..] else t[1..];
     u != [] && AllDigits(u))
  }

  predicate ValidFraction(t: string) {
    if t != [] && t[0] == '.' then
      var n := DigitSpan(t[1..]);
      n > 0 && ValidExponent(t[1 + n..])
    else ValidExponent(t)
  }

  predicate ValidNumber(l: string) {
    var m := if l != [] && l[0] == '-' then l[1..] else l;
    var n := DigitSpan(m);
    n > 0 && (m[0] != '0' || n == 1) && ValidFraction(m[n..])
  }

  /** The number a lexeme denotes is zero: no digit other than 0 before
      the exponent. */
  predicate DenotesZero(l: string) {
    l == [] || l[0] == 'e' || l[0] == 'E' ||
    ((l[0] == '0' || l[0] == '-' || l[0] == '.') && DenotesZero(l[1..]))
  }

  lemma ValidExponentChars(t: string)
    requires ValidExponent(t)
    ensures forall i :: 0 <= i < |t| ==> IsNumberChar(t[i])
  {
    if t != [] {
      var u := if |t| > 1 && (t[1] == '+' || t[1] == '-') then t[2..] else t[1..];
      forall i | 0 <= i < |t| ensures IsNumberChar(t[i]) {
        if i >= |t| - |u| {
          assert t[i] == u[i - (|t| - |u|)];
        }
      }
    }
  }

  /** Number characters followed by number characters. */
  lemma NumberCharsJoin(t: string, n: nat)
    requires n <= |t|
    requires forall i :: 0 <= i < n ==> IsNumberChar(t[i])
    requires forall i :: 0 <= i < |t[n..]| ==> IsNumberChar(t[n..][i])
    ensures forall i :: 0 <= i < |t| ==> IsNumberChar(t[i])
  {
    forall i | n <= i < |t| ensures IsNumberChar(t[i]) {
      assert t[i] == t[n..][i - n];
    }
  }

  lemma DigitsAreNumberChars(m: string, n: nat)
    requires n <= |m| && AllDigits(m[..n])
    ensures forall i :: 0 <= i < n ==> IsNumberChar(m[i])
  {
    forall i | 0 <= i < n ensures IsNumberChar(m[i]) {
      assert m[i] == m[..n][i];
    }
  }

  lemma ValidFractionChars(t: string)
    requires ValidFraction(t)
    ensures forall i :: 0 <= i < |t| ==> IsNumberChar(t[i])
  {
    if t != [] && t[0] == '.' {
      var u := t[1..];
      var n := DigitSpan(u);
      assert u[n..] == t[1 + n..];
      ValidExponentChars(u[n..]);
      DigitsAreNumberChars(u, n);
      NumberCharsJoin(u, n);
      NumberCharsJoin(t, 1);
    } else {
      ValidExponentChars(t);
    }
  }

  /** Digits followed by a fraction-and-exponent tail are number
      characters throughout. */
  lemma DigitsThenFractionChars(m: string, n: nat)
    requires n <= |m| && AllDigits(m[..n]) && ValidFraction(m[n..])
    ensures forall i :: 0 <= i < |m| ==> IsNumberChar(m[i])
  {
    ValidFractionChars(m[n..]);
    DigitsAreNumberChars(m, n);
    NumberCharsJoin(m, n);
  }

  lemma ValidNumberChars(l: string)
    requires ValidNumber(l)
    ensures l != [] && (IsDigit(l[0]) || l[0] == '-')
    ensures forall i :: 0 <= i < |l| ==> IsNumberChar(l[i])
  {
    var m := if l != [] && l[0] == '-' then l[1..] else l;
    var n := DigitSpan(m);
    DigitsThenFractionChars(m, n);
    assert m[..n][0] == m[0];
    if l != [] && l[0] == '-' {
      assert forall i :: 1 <= i < |l| ==> l[i] == m[i - 1];
    }
  }

  // ---------------------------------------------------------------------
  // Strings
  // ---------------------------------------------------------------------

  function HexDigitValue(c: char): (r: Option<nat>)
    ensures r.Some? ==> r.value < 16
  {
    if '0' <= c <= '9' then Some(c as nat - '0' as nat)
    else if 'a' <= c <= 'f' then Some(c as nat - 'a' as nat + 10)
    else if 'A' <= c <= 'F' then Some(c as nat - 'A' as nat + 10)
    else None
  }

  /** The code unit written by four hexadecimal digits, as in `\u00e9`. */
  function Hex4(s: string): (r: Option<nat>)
    requires |s| == 4
    ensures r.Some? ==> r.value < 0x1_0000
  {
    match (HexDigitValue(s[0]), HexDigitValue(s[1]), HexDigitValue(s[2]), HexDigitValue(s[3]))
    case (Some(a), Some(b), Some(c), Some(d)) => Some(((a * 16 + b) * 16 + c) * 16 + d)
    case _ => None
  }

  /** The character a two-character escape such as `\n` stands for. */
  function SimpleUnescape(c: char): Option<char> {
    if c == '"' then Some('"')
    else if c == '\\' then Some('\\')
    else if c == '/' then Some('/')
    else if c == 'b' then Some('\U{8}')
    else if c == 'f' then Some('\U{C}')
    else if c == 'n' then Some('\n')
    else if c == 'r' then Some('\r')
    else if c == 't' then Some('\t')
    else None
  }

  /** Reads the characters of a string literal after its opening quote,
      up to and including the closing quote; `acc` holds what is decoded
      so far. */
  function ParseChars(s: string, acc: string): (r: Option<(string, string)>)
    ensures r.Some? ==> |r.value.1| < |s|
  {
    if s == [] then None
    else if s[0] == '"' then Some((acc, s[1..]))
    else if s[0] == '\\' then
      if |s| < 2 then None
      else if s[1] == 'u' then
        if |s| < 6 then None
        else match Hex4(s[2..6])
          case None => None
          case Some(code) =>
            if 0xD800 <= code < 0xE000 then None
            else ParseChars(s[6..], acc + [code as char])
      else match SimpleUnescape(s[1])
        case None => None
        case Some(c) => ParseChars(s[2..], acc + [c])
    else if s[0] < ' ' then None
    else ParseChars(s[1..], acc + [s[0]])
  }

  function HexDigit(n: nat): char
    requires n < 16
  {
    if n < 10 then ('0' as nat + n) as char else ('a' as nat + n - 10) as char
  }

  /** How `JSON.stringify` writes one character inside a string literal. */
  function EscapeChar(c: char): string {
    if c == '"' then "\\\""
    else if c == '\\' then "\\\\"
    else if c == '\U{8}' then "\\b"
    else if c == '\U{C}' then "\\f"
    else if c == '\n' then "\\n"
    else if c == '\r' then "\\r"
    else if c == '\t' then "\\t"
    else if c < ' ' then "\\u00" + [HexDigit(c as nat / 16), HexDigit(c as nat % 16)]
    else [c]
  }

  function Escape(s: string): string {
    if s == [] then "" else EscapeChar(s[0]) + Escape(s[1..])
  }

  function Quote(s: string): string {
    "\"" + Escape(s) + "\""
  }

  // ---------------------------------------------------------------------
  // Parser
  // ---------------------------------------------------------------------

  /** One value, after optional leading whitespace. The first character
      decides what kind of value is read. */
  function ParseValue(s: string): (r: Option<(Value, string)>)
    decreases |s|, 0
    ensures r.Some? ==> |r.value.1| < |s|
  {
    var t := SkipSpace(s);
    if t == [] then None
    else if t[0] == '[' then ParseArray(t[1..])
    else if t[0] == '{' then ParseObject(t[1..])
    else if t[0] == '"' then ParseString(t[1..])
    else if t[0] == 'n' then ParseLiteral(t, "null", Null)
    else if t[0] == 't' then ParseLiteral(t, "true", Bool(true))
    else if t[0] == 'f' then ParseLiteral(t, "false", Bool(false))
    else ParseNumber(t)
  }

  /** The rest of a string literal after its opening quote. */
  function ParseString(s: string): (r: Option<(Value, string)>)
    ensures r.Some? ==> r.value.0.Str? && |r.value.1| < |s|
  {
    match ParseChars(s, "")
    case None => None
    case Some((str, rest)) => Some((Str(str), rest))
  }

  /** One of the words `null`, `true` and `false`. */
  function ParseLiteral(s: string, word: string, v: Value): (r: Option<(Value, string)>)
    requires word != []
    ensures r.Some? ==> r.value.0 == v && |r.value.1| < |s|
  {
    if |s| >= |word| && s[..|word|] == word then Some((v, s[|word|..])) else None
  }

  /** A number: the longest run of number characters, which must follow
      the number grammar. */
  function ParseNumber(s: string): (r: Option<(Value, string)>)
    ensures r.Some? ==> r.value.0.Num? && |r.value.1| < |s|
  {
    var n := NumberSpan(s);
    if n > 0 && ValidNumber(s[..n]) then Some((Num(s[..n]), s[n..])) else None
  }

  /** The rest of an array after its `[`. */
  function ParseArray(s: string): (r: Option<(Value, string)>)
    decreases |s|, 2
    ensures r.Some? ==> r.value.0.Arr? && |r.value.1| < |s|
  {
    var t := SkipSpace(s);
    if t != [] && t[0] == ']' then Some((Arr([]), t[1..])) else ParseItems(t, [])
  }

  /** The elements of a non-empty array and its `]`; `acc` holds the
      elements read so far. */
  function ParseItems(s: string, acc: seq<Value>): (r: Option<(Value, string)>)
    decreases |s|, 1
    ensures r.Some? ==> r.value.0.Arr? && |r.value.1| < |s|
  {
    match ParseValue(s)
    case None => None
    case Some((v, rest)) =>
      var t := SkipSpace(rest);
      if t != [] && t[0] == ',' then ParseItems(t[1..], acc + [v])
      else if t != [] && t[0] == ']' then Some((Arr(acc + [v]), t[1..]))
      else None
  }

  /** The rest of an object after its `{`. */
  function ParseObject(s: string): (r: Option<(Value, string)>)
    decreases |s|, 3
    ensures r.Some? ==> r.value.0.Obj? && |r.value.1| < |s|
  {
    var t := SkipSpace(s);
    if t != [] && t[0] == '}' then Some((Obj([]), t[1..])) else ParseMembers(t, [])
  }

  /** The members of a non-empty object and its `}`. A repeated key keeps
      its first position and takes the last value, as with `JSON.parse`. */
  function ParseMembers(s: string, acc: seq<(string, Value)>): (r: Option<(Value, string)>)
    decreases |s|, 2
    ensures r.Some? ==> r.value.0.Obj? && |r.value.1| < |s|
  {
    var t := SkipSpace(s);
    if t == [] || t[0] != '"' then None
    else match ParseChars(t[1..], "")
      case None => None
      case Some((key, r1)) => ParseMemberValue(key, r1, acc)
  }

  /** The `:` and the value of the member named `key`, then a `,` and
      more members or the closing `}`. */
  function ParseMemberValue(key: string, s: string, acc: seq<(string, Value)>): (r: Option<(Value, string)>)
    decreases |s|, 1
    ensures r.Some? ==> r.value.0.Obj? && |r.value.1| < |s|
  {
    var u := SkipSpace(s);
    if u == [] || u[0] != ':' then None
    else match ParseValue(u[1..])
      case None => None
      case Some((v, r2)) =>
        var w := SkipSpace(r2);
        if w != [] && w[0] == ',' then ParseMembers(w[1..], Put(acc, key, v))
        else if w != [] && w[0] == '}' then Some((Obj(Put(acc, key, v)), w[1..]))
        else None
  }

  /** `JSON.parse`: one value surrounded by optional whitespace; `None`
      where `JSON.parse` throws a `SyntaxError`. */
  function Parse(s: string): (r: Option<Value>)
    ensures r.Some? ==> WellFormed(r.value)
  {
    match ParseValue(s)
    case None => None
    case Some((v, rest)) =>
      ParsedValueWellFormed(s);
      if SkipSpace(rest) == [] then Some(v) else None
  }

  // ---------------------------------------------------------------------
  // Serializer (`JSON.stringify` without indentation; a number is written
  // as its lexeme)
  // ---------------------------------------------------------------------

  function Serialize(v: Value): string
    decreases v, 1
  {
    match v
    case Null => "null"
    case Bool(b) => if b then "true" else "false"
    case Num(l) => l
    case Str(s) => Quote(s)
    case Arr(items) => "[" + SerializeItems(items) + "]"
    case Obj(ms) => "{" + SerializeMembers(ms) + "}"
  }

  function SerializeItems(vs: seq<Value>): string
    decreases vs, 0
  {
    if vs == [] then ""
    else if |vs| == 1 then Serialize(vs[0])
    else Serialize(vs[0]) + "," + SerializeItems(vs[1..])
  }

  function SerializeMembers(ms: seq<(string, Value)>): string
    decreases ms, 0
  {
    if ms == [] then ""
    else
      var m := ms[0];
      assert m in ms && m.1 < m;
      if |ms| == 1 then Quote(ms[0].0) + ":" + Serialize(ms[0].1)
    else Quote(ms[0].0) + ":" + Serialize(ms[0].1) + "," + SerializeMembers(ms[1..])
  }

  /** Valid number lexemes and one member per key: every value `Parse`
      produces is well formed (its `ensures`), and every well-formed value
      is produced by parsing its serialisation (`JsonLaws.RoundTrip`). */
  ghost predicate WellFormed(v: Value) {
    match v
    case Num(l) => ValidNumber(l)
    case Arr(items) => forall i :: 0 <= i < |items| ==> WellFormed(items[i])
    case Obj(ms) => DistinctKeys(ms) && forall i :: 0 <= i < |ms| ==> WellFormed(ms[i].1)
    case _ => true
  }

  ghost predicate ItemsWellFormed(vs: seq<Value>) {
    forall i :: 0 <= i < |vs| ==> WellFormed(vs[i])
  }

  ghost predicate MembersWellFormed(ms: seq<(string, Value)>) {
    DistinctKeys(ms) && forall i :: 0 <= i < |ms| ==> WellFormed(ms[i].1)
  }

  /** Property assignment of a well-formed value keeps an object well
      formed. */
  lemma PutWellFormed(ms: seq<(string, Value)>, k: string, v: Value)
    requires MembersWellFormed(ms) && WellFormed(v)
    ensures MembersWellFormed(Put(ms, k, v))
  {
    var r := Put(ms, k, v);
    forall i | 0 <= i < |r| ensures WellFormed(r[i].1) {
      match KeyIndex(ms, k)
      case None =>
        if i < |ms| { assert r[i] == ms[i]; }
      case Some(j) =>
        if i != j { assert r[i] == ms[i]; }
    }
  }

  // Every value the parser returns is well formed. Each lemma follows
  // the function of the same shape.

  lemma {:induction false} ParsedValueWellFormed(s: string)
    ensures ParseValue(s).Some? ==> WellFormed(ParseValue(s).value.0)
    decreases |s|, 0
  {
    var t := SkipSpace(s);
    if t != [] {
      if t[0] == '[' {
        ParsedArrayWellFormed(t[1..]);
      } else if t[0] == '{' {
        ParsedObjectWellFormed(t[1..]);
      }
    }
  }

  lemma {:induction false} ParsedArrayWellFormed(s: string)
    ensures ParseArray(s).Some? ==> WellFormed(ParseArray(s).value.0)
    decreases |s|, 2
  {
    var t := SkipSpace(s);
    if !(t != [] && t[0] == ']') {
      ParsedItemsWellFormed(t, []);
    }
  }

  lemma {:induction false} ParsedItemsWellFormed(s: string, acc: seq<Value>)
    requires ItemsWellFormed(acc)
    ensures ParseItems(s, acc).Some? ==> WellFormed(ParseItems(s, acc).value.0)
    decreases |s|, 1
  {
    ParsedValueWellFormed(s);
    match ParseValue(s)
    case None =>
    case Some((v, rest)) =>
      var items := acc + [v];
      assert ItemsWellFormed(items) by {
        forall i | 0 <= i < |items| ensures WellFormed(items[i]) {
          if i < |acc| { assert items[i] == acc[i]; }
        }
      }
      var t := SkipSpace(rest);
      if t != [] && t[0] == ',' {
        ParsedItemsWellFormed(t[1..], items);
      }
  }

  lemma {:induction false} ParsedObjectWellFormed(s: string)
    ensures ParseObject(s).Some? ==> WellFormed(ParseObject(s).value.0)
    decreases |s|, 3
  {
    var t := SkipSpace(s);
    if !(t != [] && t[0] == '}') {
      ParsedMembersWellFormed(t, []);
    }
  }

  lemma {:induction false} ParsedMembersWellFormed(s: string, acc: seq<(string, Value)>)
    requires MembersWellFormed(acc)
    ensures ParseMembers(s, acc).Some? ==> WellFormed(ParseMembers(s, acc).value.0)
    decreases |s|, 2
  {
    var t := SkipSpace(s);
    if t != [] && t[0] == '"' {
      match ParseChars(t[1..], "")
      case None =>
      case Some((key, r1)) =>
        ParsedMemberValueWellFormed(key, r1, acc);
    }
  }

  lemma {:induction false} ParsedMemberValueWellFormed(key: string, s: string, acc: seq<(string, Value)>)
    requires MembersWellFormed(acc)
    ensures ParseMemberValue(key, s, acc).Some? ==> WellFormed(ParseMemberValue(key, s, acc).value.0)
    decreases |s|, 1
  {
    var u := SkipSpace(s);
    if u != [] && u[0] == ':' {
      ParsedValueWellFormed(u[1..]);
      match ParseValue(u[1..])
      case None =>
      case Some((v, r2)) =>
        PutWellFormed(acc, key, v);
        var w := SkipSpace(r2);
        if w != [] && w[0] == ',' {
          ParsedMembersWellFormed(w[1..], Put(acc, key, v));
        }
    }
  }
}
