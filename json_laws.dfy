/**
  What the JSON model promises: `Parse` reads back whatever `Serialize`
  writes, and a text that starts with `[` can only parse to an array.
*/
module JsonLaws {
  import opened Json

  /** A text that can follow a value without being read as part of it:
      only a number lexeme could run on into what follows. */
  predicate Delimited(rest: string) {
    rest == [] || !IsNumberChar(rest[0])
  }

  lemma HexDigitRoundTrip(n: nat)
    requires n < 16
    ensures HexDigitValue(HexDigit(n)) == Some(n)
  {
  }

  /** One escaped character is decoded back to itself. */
  lemma {:induction false} EscapeCharParses(c: char, t: string, acc: string)
    ensures ParseChars(EscapeChar(c) + t, acc) == ParseChars(t, acc + [c])
  {
    var s := EscapeChar(c) + t;
    if c == '"' || c == '\\' || c == '\U{8}' || c == '\U{C}' || c == '\n' || c == '\r' || c == '\t' {
      assert s[0] == '\\' && |s| >= 2 && s[1] != 'u' && s[2..] == t;
    } else if c < ' ' {
      var hi, lo := c as nat / 16, c as nat % 16;
      HexDigitRoundTrip(hi);
      HexDigitRoundTrip(lo);
      assert s[2..6] == ['0', '0', HexDigit(hi), HexDigit(lo)];
      assert Hex4(s[2..6]) == Some(c as nat);
      assert s[6..] == t;
    } else {
      assert s[0] == c && s[1..] == t;
    }
  }

  /** A quoted string is decoded back to its contents. */
  lemma {:induction false} EscapeParses(x: string, rest: string, acc: string)
    ensures ParseChars(Escape(x) + "\"" + rest, acc) == Some((acc + x, rest))
    decreases |x|
  {
    if x == [] {
      assert Escape(x) + "\"" + rest == "\"" + rest;
      assert acc + x == acc;
    } else {
      var t := Escape(x[1..]) + "\"" + rest;
      EscapeUnfold(x, rest);
      EscapeCharParses(x[0], t, acc);
      EscapeParses(x[1..], rest, acc + [x[0]]);
      ConsAppend(acc, x);
    }
  }

  lemma EscapeUnfold(x: string, rest: string)
    requires x != []
    ensures Escape(x) + "\"" + rest == EscapeChar(x[0]) + (Escape(x[1..]) + "\"" + rest)
  {
    assert Escape(x) == EscapeChar(x[0]) + Escape(x[1..]);
  }

  lemma {:induction false} NumberSpanOfLexeme(l: string, rest: string)
    requires forall i :: 0 <= i < |l| ==> IsNumberChar(l[i])
    requires Delimited(rest)
    ensures NumberSpan(l + rest) == |l|
    decreases |l|
  {
    if l != [] {
      assert (l + rest)[1..] == l[1..] + rest;
      NumberSpanOfLexeme(l[1..], rest);
    }
  }

  /** The first character of a serialized value selects its kind. */
  lemma SerializedStart(v: Value)
    requires WellFormed(v)
    ensures Serialize(v) != []
    ensures v.Num? ==> IsDigit(Serialize(v)[0]) || Serialize(v)[0] == '-'
    ensures !v.Num? ==> Serialize(v)[0] in {'n', 't', 'f', '"', '[', '{'}
  {
    if v.Num? {
      ValidNumberChars(v.lexeme);
    }
  }

  /** How `ParseValue` reads a text that starts with a value's first
      character. */
  lemma Dispatch(t: string)
    requires t != [] && !IsSpace(t[0])
    ensures ParseValue(t) ==
      if t[0] == '[' then ParseArray(t[1..])
      else if t[0] == '{' then ParseObject(t[1..])
      else if t[0] == '"' then ParseString(t[1..])
      else if t[0] == 'n' then ParseLiteral(t, "null", Null)
      else if t[0] == 't' then ParseLiteral(t, "true", Bool(true))
      else if t[0] == 'f' then ParseLiteral(t, "false", Bool(false))
      else ParseNumber(t)
  {
  }

  /** After a value, `ParseItems` reads a `,` and goes on, or a `]` and
      stops. */
  lemma ItemsStep(s: string, acc: seq<Value>, v: Value, sep: char, after: string)
    requires ParseValue(s) == Some((v, [sep] + after))
    requires sep == ',' || sep == ']'
    ensures ParseItems(s, acc) ==
      if sep == ',' then ParseItems(after, acc + [v]) else Some((Arr(acc + [v]), after))
  {
    assert SkipSpace([sep] + after) == [sep] + after;
    assert ([sep] + after)[1..] == after;
  }

  lemma {:induction false} ValueParses(v: Value, rest: string)
    requires WellFormed(v) && Delimited(rest)
    ensures ParseValue(Serialize(v) + rest) == Some((v, rest))
    decreases v, 2
  {
    match v
    case Null => LiteralParses(v, rest);
    case Bool(_) => LiteralParses(v, rest);
    case Num(l) => NumberParses(l, rest);
    case Str(x) => StringParses(x, rest);
    case Arr(items) => ArrayParses(items, rest);
    case Obj(ms) => ObjectParses(ms, rest);
  }

  lemma LiteralParses(v: Value, rest: string)
    requires v.Null? || v.Bool?
    ensures ParseValue(Serialize(v) + rest) == Some((v, rest))
  {
    var w := Serialize(v);
    var s := w + rest;
    assert s[0] == w[0];
    Dispatch(s);
    assert s[..|w|] == w && s[|w|..] == rest;
  }

  lemma NumberParses(l: string, rest: string)
    requires ValidNumber(l) && Delimited(rest)
    ensures ParseValue(Serialize(Num(l)) + rest) == Some((Num(l), rest))
  {
    var s := l + rest;
    ValidNumberChars(l);
    assert s[0] == l[0];
    Dispatch(s);
    NumberSpanOfLexeme(l, rest);
    assert s[..|l|] == l && s[|l|..] == rest;
  }

  lemma StringParses(x: string, rest: string)
    ensures ParseValue(Serialize(Str(x)) + rest) == Some((Str(x), rest))
  {
    var s := Serialize(Str(x)) + rest;
    assert s[0] == '"';
    Dispatch(s);
    assert s[1..] == Escape(x) + "\"" + rest;
    EscapeParses(x, rest, "");
    assert "" + x == x;
  }

  /** How `ParseArray` and `ParseObject` read a text that does not start
      with whitespace. */
  lemma OpenStep(t: string)
    requires t != [] && !IsSpace(t[0])
    ensures ParseArray(t) == if t[0] == ']' then Some((Arr([]), t[1..])) else ParseItems(t, [])
    ensures ParseObject(t) == if t[0] == '}' then Some((Obj([]), t[1..])) else ParseMembers(t, [])
  {
  }

  lemma ConsAppend<T>(acc: seq<T>, xs: seq<T>)
    requires xs != []
    ensures acc + [xs[0]] + xs[1..] == acc + xs
    ensures [] + xs == xs
  {
  }

  lemma Unwrap(open: char, a: string, close: char, e: string)
    ensures [open] + a + [close] + e != []
    ensures ([open] + a + [close] + e)[0] == open
    ensures ([open] + a + [close] + e)[1..] == a + [close] + e
  {
    assert [open] + a + [close] + e == [open] + (a + [close] + e);
  }

  lemma {:induction false} ArrayParses(items: seq<Value>, rest: string)
    requires forall i :: 0 <= i < |items| ==> WellFormed(items[i])
    requires Delimited(rest)
    ensures ParseValue(Serialize(Arr(items)) + rest) == Some((Arr(items), rest))
    decreases items, 2
  {
    var s := Serialize(Arr(items)) + rest;
    assert Serialize(Arr(items)) == "[" + SerializeItems(items) + "]";
    Unwrap('[', SerializeItems(items), ']', rest);
    Dispatch(s);
    ItemsOpen(items, rest);
  }

  lemma {:induction false} ItemsOpen(items: seq<Value>, rest: string)
    requires forall i :: 0 <= i < |items| ==> WellFormed(items[i])
    ensures ParseArray(SerializeItems(items) + "]" + rest) == Some((Arr(items), rest))
    decreases items, 1
  {
    var t := SerializeItems(items) + "]" + rest;
    if items == [] {
      assert t == [']'] + rest;
      OpenStep(t);
    } else {
      ItemsParse(items, [], rest);
      ConsAppend([], items);
      ItemsSplit(items, rest);
      SerializedStart(items[0]);
      OpenStep(t);
    }
  }

  lemma {:induction false} ObjectParses(ms: seq<(string, Value)>, rest: string)
    requires DistinctKeys(ms) && forall i :: 0 <= i < |ms| ==> WellFormed(ms[i].1)
    requires Delimited(rest)
    ensures ParseValue(Serialize(Obj(ms)) + rest) == Some((Obj(ms), rest))
    decreases ms, 2
  {
    var s := Serialize(Obj(ms)) + rest;
    assert Serialize(Obj(ms)) == "{" + SerializeMembers(ms) + "}";
    Unwrap('{', SerializeMembers(ms), '}', rest);
    Dispatch(s);
    MembersOpen(ms, rest);
  }

  lemma {:induction false} MembersOpen(ms: seq<(string, Value)>, rest: string)
    requires DistinctKeys(ms) && forall i :: 0 <= i < |ms| ==> WellFormed(ms[i].1)
    ensures ParseObject(SerializeMembers(ms) + "}" + rest) == Some((Obj(ms), rest))
    decreases ms, 1
  {
    var t := SerializeMembers(ms) + "}" + rest;
    if ms == [] {
      assert t == ['}'] + rest;
      OpenStep(t);
    } else {
      ConsAppend([], ms);
      MembersParse(ms, [], rest);
      MembersSplit(ms, rest);
      OpenStep(t);
    }
  }

  /** The text of non-empty items followed by `]`: the first item, then a
      separator and what follows it. */
  lemma ItemsSplit(vs: seq<Value>, rest: string)
    requires vs != []
    ensures SerializeItems(vs) + "]" + rest ==
      Serialize(vs[0]) + ([if |vs| == 1 then ']' else ','] + ItemsAfter(vs, rest))
  {
    var a := Serialize(vs[0]);
    if |vs| == 1 {
      assert SerializeItems(vs) == a;
      Regroup2(a, rest);
    } else {
      var c := SerializeItems(vs[1..]);
      assert SerializeItems(vs) == a + "," + c;
      Regroup4(a, c, rest, ',', ']');
    }
  }

  function ItemsAfter(vs: seq<Value>, rest: string): string
    requires vs != []
  {
    if |vs| == 1 then rest else SerializeItems(vs[1..]) + "]" + rest
  }

  lemma Regroup2(a: string, e: string)
    ensures a + "]" + e == a + ([']'] + e)
  {
  }

  lemma Regroup4<X>(a: seq<X>, c: seq<X>, e: seq<X>, sep: X, close: X)
    ensures a + [sep] + c + [close] + e == a + ([sep] + (c + [close] + e))
  {
  }

  lemma {:induction false} ItemsParse(vs: seq<Value>, acc: seq<Value>, rest: string)
    requires vs != [] && forall i :: 0 <= i < |vs| ==> WellFormed(vs[i])
    ensures ParseItems(SerializeItems(vs) + "]" + rest, acc) == Some((Arr(acc + vs), rest))
    decreases vs, 0
  {
    var s := SerializeItems(vs) + "]" + rest;
    var after := ItemsAfter(vs, rest);
    ItemsSplit(vs, rest);
    ConsAppend(acc, vs);
    if |vs| == 1 {
      ValueParses(vs[0], [']'] + after);
      ItemsStep(s, acc, vs[0], ']', after);
      assert acc + [vs[0]] == acc + vs;
    } else {
      ValueParses(vs[0], [','] + after);
      ItemsStep(s, acc, vs[0], ',', after);
      ItemsParse(vs[1..], acc + [vs[0]], rest);
    }
  }

  /** After a key and a value, `ParseMembers` reads a `,` and goes on, or
      a `}` and stops. */
  lemma MemberStep(s: string, acc: seq<(string, Value)>, key: string, r1: string, v: Value, sep: char, after: string)
    requires s != [] && s[0] == '"'
    requires ParseChars(s[1..], "") == Some((key, r1))
    requires r1 != [] && r1[0] == ':'
    requires ParseValue(r1[1..]) == Some((v, [sep] + after))
    requires sep == ',' || sep == '}'
    ensures ParseMembers(s, acc) ==
      if sep == ',' then ParseMembers(after, Put(acc, key, v)) else Some((Obj(Put(acc, key, v)), after))
  {
    KeyStep(s, acc, key, r1);
    ValueStep(key, r1, acc, v, sep, after);
  }

  lemma KeyStep(s: string, acc: seq<(string, Value)>, key: string, r1: string)
    requires s != [] && s[0] == '"'
    requires ParseChars(s[1..], "") == Some((key, r1))
    ensures ParseMembers(s, acc) == ParseMemberValue(key, r1, acc)
  {
    assert SkipSpace(s) == s;
  }

  lemma ValueStep(key: string, r1: string, acc: seq<(string, Value)>, v: Value, sep: char, after: string)
    requires r1 != [] && r1[0] == ':'
    requires ParseValue(r1[1..]) == Some((v, [sep] + after))
    requires sep == ',' || sep == '}'
    ensures ParseMemberValue(key, r1, acc) ==
      if sep == ',' then ParseMembers(after, Put(acc, key, v)) else Some((Obj(Put(acc, key, v)), after))
  {
    NoLeadingSpace(r1);
    Cons(sep, after);
    NoLeadingSpace([sep] + after);
  }

  lemma Cons(c: char, t: string)
    ensures [c] + t != [] && ([c] + t)[0] == c && ([c] + t)[1..] == t
  {
  }

  lemma NoLeadingSpace(t: string)
    requires t != [] && !IsSpace(t[0])
    ensures SkipSpace(t) == t
  {
  }

  lemma {:induction false} MembersStep(acc: seq<(string, Value)>, k: string, v: Value, sep: char, after: string)
    requires WellFormed(v)
    requires sep == ',' || sep == '}'
    ensures ParseMembers(Quote(k) + ([':'] + Serialize(v) + [sep] + after), acc) ==
      if sep == ',' then ParseMembers(after, Put(acc, k, v)) else Some((Obj(Put(acc, k, v)), after))
    decreases v, 3
  {
    var r1 := [':'] + Serialize(v) + [sep] + after;
    var s := Quote(k) + r1;
    assert s == ['"'] + Escape(k) + ['"'] + r1;
    Unwrap('"', Escape(k), '"', r1);
    EscapeParses(k, r1, "");
    assert "" + k == k;
    Unwrap(':', Serialize(v), sep, after);
    assert r1[1..] == Serialize(v) + ([sep] + after);
    ValueParses(v, [sep] + after);
    MemberStep(s, acc, k, r1, v, sep, after);
  }

  function MembersAfter(ms: seq<(string, Value)>, rest: string): string
    requires ms != []
  {
    if |ms| == 1 then rest else SerializeMembers(ms[1..]) + "}" + rest
  }

  lemma MembersSplit(ms: seq<(string, Value)>, rest: string)
    requires ms != []
    ensures SerializeMembers(ms) + "}" + rest ==
      Quote(ms[0].0) + ([':'] + Serialize(ms[0].1) + [if |ms| == 1 then '}' else ','] + MembersAfter(ms, rest))
  {
    var q := Quote(ms[0].0);
    var a := Serialize(ms[0].1);
    if |ms| == 1 {
      MembersUnfoldOne(ms);
      RegroupLast(q, a, rest, ':', '}');
    } else {
      var c := SerializeMembers(ms[1..]);
      MembersUnfold(ms);
      RegroupMore(q, a, c, rest, ':', ',', '}');
    }
  }

  lemma MembersUnfoldOne(ms: seq<(string, Value)>)
    requires |ms| == 1
    ensures SerializeMembers(ms) == Quote(ms[0].0) + [':'] + Serialize(ms[0].1)
  {
  }

  lemma MembersUnfold(ms: seq<(string, Value)>)
    requires |ms| > 1
    ensures SerializeMembers(ms) == Quote(ms[0].0) + [':'] + Serialize(ms[0].1) + [','] + SerializeMembers(ms[1..])
  {
  }

  lemma RegroupLast<X>(q: seq<X>, a: seq<X>, e: seq<X>, colon: X, close: X)
    ensures q + [colon] + a + [close] + e == q + ([colon] + a + [close] + e)
  {
  }

  lemma RegroupMore<X>(q: seq<X>, a: seq<X>, c: seq<X>, e: seq<X>, colon: X, sep: X, close: X)
    ensures q + [colon] + a + [sep] + c + [close] + e == q + ([colon] + a + [sep] + (c + [close] + e))
  {
  }

  lemma {:induction false} MembersParse(ms: seq<(string, Value)>, acc: seq<(string, Value)>, rest: string)
    requires ms != [] && DistinctKeys(acc + ms)
    requires forall i :: 0 <= i < |ms| ==> WellFormed(ms[i].1)
    ensures ParseMembers(SerializeMembers(ms) + "}" + rest, acc) == Some((Obj(acc + ms), rest))
    decreases ms, 0
  {
    var m := ms[0];
    assert m in ms && m.1 < m;
    assert WellFormed(m.1);
    var s := SerializeMembers(ms) + "}" + rest;
    FreshKey(acc, ms);
    ConsAppend(acc, ms);
    MembersSplit(ms, rest);
    if |ms| == 1 {
      var x := Quote(m.0) + ([':'] + Serialize(m.1) + ['}'] + rest);
      assert s == x;
      MembersStep(acc, m.0, m.1, '}', rest);
      assert ParseMembers(x, acc) == Some((Obj(acc + [m]), rest));
      assert acc + [m] == acc + ms;
    } else {
      var after := SerializeMembers(ms[1..]) + "}" + rest;
      var x := Quote(m.0) + ([':'] + Serialize(m.1) + [','] + after);
      assert s == x;
      MembersStep(acc, m.0, m.1, ',', after);
      assert ParseMembers(x, acc) == ParseMembers(after, acc + [m]);
      MembersParse(ms[1..], acc + [m], rest);
    }
  }

  /** While the members are read back, each key is new, so `Put` appends. */
  lemma FreshKey(acc: seq<(string, Value)>, ms: seq<(string, Value)>)
    requires ms != [] && DistinctKeys(acc + ms)
    ensures Put(acc, ms[0].0, ms[0].1) == acc + [ms[0]]
  {
    var k := ms[0].0;
    assert KeyIndex(acc, k).None? by {
      forall i | 0 <= i < |acc| ensures acc[i].0 != k {
        assert (acc + ms)[i] == acc[i] && (acc + ms)[|acc|] == ms[0];
      }
    }
  }

  /** Parsing the compact serialisation of `v` gives back `v`. */
  lemma RoundTrip(v: Value)
    requires WellFormed(v)
    ensures Parse(Serialize(v)) == Some(v)
  {
    ValueParses(v, []);
    assert Serialize(v) + [] == Serialize(v);
  }

  /** A text whose first character is `[` parses, if at all, to an array. */
  lemma BracketParsesToArray(s: string)
    requires s != [] && s[0] == '['
    ensures Parse(s).Some? ==> Parse(s).value.Arr?
  {
    Dispatch(s);
    var r := ParseArray(s[1..]);
    assert ParseValue(s) == r;
    assert r.Some? ==> r.value.0.Arr?;
  }
}
