/** The wire form of a payment order: a flat JSON object whose keys are the
    thirteen property names in declaration order and whose values are JSON
    strings or `null`. Encoding writes it compactly; decoding accepts
    whitespace between tokens. This stands in for the JSON library the
    contract uses; the round trip `Decode(Encode(po)) == Some(po)` is proved
    for it below. */
module Codec {
  import opened Wrappers
  import opened JavaLang
  import opened PaymentOrders

  // ---------------------------------------------------------------- encoding

  /** Inside a JSON string, `"` and `\` are preceded by a backslash. */
  function Escape(s: string): string
  {
    if s == [] then []
    else (if s[0] == '"' || s[0] == '\\' then ['\\', s[0]] else [s[0]]) + Escape(s[1..])
  }

  function EncodeString(s: string): string
  {
    "\"" + Escape(s) + "\""
  }

  function EncodeValue(v: JString): string
  {
    match v
    case None => "null"
    case Some(s) => EncodeString(s)
  }

  /** One `"name":value` pair. */
  function EncodeMember(name: string, v: JString): string
  {
    EncodeString(name) + ":" + EncodeValue(v)
  }

  /** The pairs for `names`, separated by commas. */
  function EncodeMembers(names: seq<string>, vs: seq<JString>): string
    requires |names| == |vs|
    decreases names
  {
    if names == [] then ""
    else
      EncodeMember(names[0], vs[0])
      + (if |names| == 1 then "" else "," + EncodeMembers(names[1..], vs[1..]))
  }

  /** An object holding the pairs for `names`. */
  function EncodeObject(names: seq<string>, vs: seq<JString>): (json: string)
    requires |names| == |vs|
    ensures json != "" && json[0] == '{'
  {
    "{" + EncodeMembers(names, vs) + "}"
  }

  /** The stored form of a record; never the empty string, which the ledger
      treats as "no value". */
  function Encode(po: PaymentOrder): (json: string)
    ensures json != "" && json[0] == '{'
  {
    EncodeObject(FieldNames, Fields(po))
  }

  // ---------------------------------------------------------------- decoding

  predicate IsWhitespace(c: char)
  {
    c == ' ' || c == '\t' || c == '\n' || c == '\r'
  }

  /** Drops leading whitespace. */
  function SkipWhitespace(s: string): (t: string)
    ensures |t| <= |s| && t == s[|s| - |t|..]
    ensures t == [] || !IsWhitespace(t[0])
    decreases |s|
  {
    if s != [] && IsWhitespace(s[0]) then SkipWhitespace(s[1..]) else s
  }

  /** After the opening quote: the unescaped characters up to the closing
      quote, and what follows that quote. */
  function ParseChars(s: string): Option<(string, string)>
    decreases |s|
  {
    if s == [] then None
    else if s[0] == '"' then Some(([], s[1..]))
    else if s[0] == '\\' then
      if |s| < 2 || (s[1] != '"' && s[1] != '\\') then None
      else
        var p :- ParseChars(s[2..]);
        Some(([s[1]] + p.0, p.1))
    else
      var p :- ParseChars(s[1..]);
      Some(([s[0]] + p.0, p.1))
  }

  function ParseString(s: string): Option<(string, string)>
  {
    var t := SkipWhitespace(s);
    if t != [] && t[0] == '"' then ParseChars(t[1..]) else None
  }

  function ParseValue(s: string): Option<(JString, string)>
  {
    var t := SkipWhitespace(s);
    if "null" <= t then Some((None, t[4..]))
    else
      var p :- ParseString(t);
      Some((Some(p.0), p.1))
  }

  /** The rest of `s` after optional whitespace and the literal `lit`. */
  function Expect(lit: string, s: string): Option<string>
  {
    var t := SkipWhitespace(s);
    if lit <= t then Some(t[|lit|..]) else None
  }

  /** Reads one pair whose key is `name`; returns its value and the unread
      rest. */
  function DecodeMember(name: string, s: string): Option<(JString, string)>
  {
    var key :- ParseString(s);
    if key.0 != name then None
    else
      var afterColon :- Expect(":", key.1);
      ParseValue(afterColon)
  }

  /** Reads the pairs for `names`, in that order, and returns their values
      and the unread rest. */
  function DecodeMembers(names: seq<string>, s: string): (r: Option<(seq<JString>, string)>)
    ensures r.Some? ==> |r.value.0| == |names|
    decreases names
  {
    if names == [] then Some(([], s))
    else
      var v :- DecodeMember(names[0], s);
      if |names| == 1 then Some(([v.0], v.1))
      else
        var afterComma :- Expect(",", v.1);
        var rest :- DecodeMembers(names[1..], afterComma);
        Some(([v.0] + rest.0, rest.1))
  }

  /** The values of an object holding exactly the pairs for `names`, in
      that order, with nothing but whitespace after it. */
  function DecodeObject(names: seq<string>, json: string): (r: Option<seq<JString>>)
    ensures r.Some? ==> |r.value| == |names|
  {
    var body :- Expect("{", json);
    var m :- DecodeMembers(names, body);
    var end :- Expect("}", m.1);
    if SkipWhitespace(end) == [] then Some(m.0) else None
  }

  /** The record a stored value denotes, or `None` when the value is not in
      the wire form. */
  function Decode(json: string): Option<PaymentOrder>
  {
    var vs :- DecodeObject(FieldNames, json);
    Some(FromFields(vs))
  }

  // -------------------------------------------------------------- round trip

  /** A stored value that is not an object, the empty string included, is
      not a record. */
  lemma DecodeRejectsNonObject(json: string)
    requires SkipWhitespace(json) == [] || SkipWhitespace(json)[0] != '{'
    ensures Decode(json) == None
  {
    assert Expect("{", json) == None;
  }

  lemma SkipWhitespaceStops(s: string)
    requires s != [] && !IsWhitespace(s[0])
    ensures SkipWhitespace(s) == s
  {
  }

  lemma {:induction false} ParseCharsEscaped(s: string, rest: string)
    ensures ParseChars(Escape(s) + "\"" + rest) == Some((s, rest))
    decreases |s|
  {
    var t := Escape(s) + "\"" + rest;
    if s == [] {
      assert t == "\"" + rest;
    } else {
      ParseCharsEscaped(s[1..], rest);
      var tail := Escape(s[1..]) + "\"" + rest;
      if s[0] == '"' || s[0] == '\\' {
        assert t == ['\\', s[0]] + tail;
        assert t[2..] == tail;
      } else {
        assert t == [s[0]] + tail;
        assert t[1..] == tail;
      }
      assert [s[0]] + s[1..] == s;
    }
  }

  lemma ParseStringEncoded(s: string, rest: string)
    ensures ParseString(EncodeString(s) + rest) == Some((s, rest))
  {
    var t := EncodeString(s) + rest;
    SkipWhitespaceStops(t);
    assert t[1..] == Escape(s) + "\"" + rest;
    ParseCharsEscaped(s, rest);
  }

  lemma ParseValueEncoded(v: JString, rest: string)
    ensures ParseValue(EncodeValue(v) + rest) == Some((v, rest))
  {
    var t := EncodeValue(v) + rest;
    SkipWhitespaceStops(t);
    match v
    case None =>
      assert "null" <= t && t[4..] == rest;
    case Some(s) =>
      assert !("null" <= t);
      ParseStringEncoded(s, rest);
  }

  lemma ExpectLiteral(lit: string, rest: string)
    requires lit != [] && !IsWhitespace(lit[0])
    ensures Expect(lit, lit + rest) == Some(rest)
  {
    SkipWhitespaceStops(lit + rest);
    assert (lit + rest)[|lit|..] == rest;
  }

  /** `DecodeMember` is its three steps in sequence. */
  lemma DecodeMemberSteps(name: string, s: string, afterKey: string, value: string, r: (JString, string))
    requires ParseString(s) == Some((name, afterKey))
    requires Expect(":", afterKey) == Some(value)
    requires ParseValue(value) == Some(r)
    ensures DecodeMember(name, s) == Some(r)
  {
  }

  lemma EncodeMemberSplit(name: string, v: JString, rest: string)
    ensures EncodeMember(name, v) + rest == EncodeString(name) + (":" + (EncodeValue(v) + rest))
  {
  }

  lemma DecodeMemberEncoded(name: string, v: JString, rest: string)
    ensures DecodeMember(name, EncodeMember(name, v) + rest) == Some((v, rest))
  {
    var value := EncodeValue(v) + rest;
    var afterKey := ":" + value;
    EncodeMemberSplit(name, v, rest);
    ParseStringEncoded(name, afterKey);
    ExpectLiteral(":", value);
    ParseValueEncoded(v, rest);
    DecodeMemberSteps(name, EncodeMember(name, v) + rest, afterKey, value, (v, rest));
  }

  /** A one-name member list is just its pair. */
  lemma EncodeMembersLast(names: seq<string>, vs: seq<JString>)
    requires |names| == |vs| == 1
    ensures EncodeMembers(names, vs) == EncodeMember(names[0], vs[0])
  {
    var m := EncodeMember(names[0], vs[0]);
    assert EncodeMembers(names, vs) == m + "";
    assert m + "" == m;
  }

  /** A longer member list is its first pair, a comma and the remaining
      pairs. */
  lemma EncodeMembersCons(names: seq<string>, vs: seq<JString>, rest: string)
    requires |names| == |vs| && |names| > 1
    ensures EncodeMembers(names, vs) + rest
      == EncodeMember(names[0], vs[0]) + ("," + (EncodeMembers(names[1..], vs[1..]) + rest))
  {
    var m := EncodeMember(names[0], vs[0]);
    var t := EncodeMembers(names[1..], vs[1..]);
    assert EncodeMembers(names, vs) == m + ("," + t);
    ConcatAssoc(m, "," + t, rest);
    ConcatAssoc(",", t, rest);
  }

  /** `DecodeMembers` on two or more names is its three steps in sequence. */
  lemma DecodeMembersSteps(names: seq<string>, s: string, afterValue: string, others: string,
                           vs: seq<JString>, rest: string)
    requires |names| > 1 && |vs| > 0
    requires DecodeMember(names[0], s) == Some((vs[0], afterValue))
    requires Expect(",", afterValue) == Some(others)
    requires DecodeMembers(names[1..], others) == Some((vs[1..], rest))
    ensures DecodeMembers(names, s) == Some((vs, rest))
  {
    assert DecodeMembers(names, s) == Some(([vs[0]] + vs[1..], rest));
    HeadTail(vs);
  }

  lemma HeadTail<T>(xs: seq<T>)
    requires xs != []
    ensures [xs[0]] + xs[1..] == xs
  {
  }

  /** `DecodeMembers` on one name is `DecodeMember`. */
  lemma DecodeMembersLastStep(names: seq<string>, s: string, v: JString, rest: string)
    requires |names| == 1
    requires DecodeMember(names[0], s) == Some((v, rest))
    ensures DecodeMembers(names, s) == Some(([v], rest))
  {
  }

  lemma {:induction false} DecodeMembersEncoded(names: seq<string>, vs: seq<JString>, rest: string)
    requires |names| == |vs|
    ensures DecodeMembers(names, EncodeMembers(names, vs) + rest) == Some((vs, rest))
    decreases names, 1
  {
    if names == [] {
      assert EncodeMembers(names, vs) + rest == rest;
    } else if |names| == 1 {
      EncodeMembersLast(names, vs);
      DecodeMemberEncoded(names[0], vs[0], rest);
      DecodeMembersLastStep(names, EncodeMembers(names, vs) + rest, vs[0], rest);
      assert [vs[0]] == vs;
    } else {
      DecodeMembersEncodedCons(names, vs, rest);
    }
  }

  lemma {:induction false} DecodeMembersEncodedCons(names: seq<string>, vs: seq<JString>, rest: string)
    requires |names| == |vs| && |names| > 1
    ensures DecodeMembers(names, EncodeMembers(names, vs) + rest) == Some((vs, rest))
    decreases names, 0
  {
    var others := EncodeMembers(names[1..], vs[1..]) + rest;
    EncodeMembersCons(names, vs, rest);
    DecodeMemberEncoded(names[0], vs[0], "," + others);
    ExpectLiteral(",", others);
    DecodeMembersEncoded(names[1..], vs[1..], rest);
    DecodeMembersSteps(names, EncodeMembers(names, vs) + rest, "," + others, others, vs, rest);
  }

  lemma DecodeObjectEncoded(names: seq<string>, vs: seq<JString>)
    requires |names| == |vs|
    ensures DecodeObject(names, EncodeObject(names, vs)) == Some(vs)
  {
    var members := EncodeMembers(names, vs);
    assert EncodeObject(names, vs) == "{" + (members + "}");
    ExpectLiteral("{", members + "}");
    DecodeMembersEncoded(names, vs, "}");
    ExpectLiteral("}", "");
    assert "}" + "" == "}";
  }

  /** Decoding the stored form gives back the very record, field for
      field. */
  lemma RoundTrip(po: PaymentOrder)
    ensures Decode(Encode(po)) == Some(po)
  {
    DecodeObjectEncoded(FieldNames, Fields(po));
  }

  /** Different records are stored as different values. */
  lemma EncodeInjective(a: PaymentOrder, b: PaymentOrder)
    requires Encode(a) == Encode(b)
    ensures a == b
  {
    RoundTrip(a);
    RoundTrip(b);
  }
}
