/**
 * What decoding a message means, for every message type of the module.
 *
 * The generated decoders differ only in which field numbers they know and what they do with
 * them. A schema says just that, so each law below is proved once, for every schema.
 */
module Schemas {
  import opened Words
  import opened Varints
  import opened Wire
  import opened Grammar

  /** A known field is a string, or an embedded `Params` message. */
  datatype Kind = Text | Nested

  type Schema = map<int, Kind>

  /** `MsgUpdateParams` */
  const MSG_UPDATE_PARAMS: Schema := map[1 := Text, 2 := Nested]
  /** `Module` */
  const MODULE: Schema := map[1 := Text]
  /** `GenesisState` and `QueryParamsResponse` */
  const PARAMS_HOLDER: Schema := map[1 := Nested]
  /** `Params`, `MsgUpdateParamsResponse` and `QueryParamsRequest` */
  const EMPTY: Schema := map[]

  /** Whether decoding succeeded, and the authority it left behind, which a failure may change too. */
  datatype Outcome = Outcome(ok: bool, authority: bytes)

  /** The field number of the field `s` starts with. */
  function Number(s: bytes): int
    requires Varint(s).Word?
  {
    FieldNumber(Varint(s).value)
  }

  /** The payload of the length-delimited field `s` starts with. */
  function Payload(s: bytes): bytes
    requires FieldLength(s).Length? && WireType(Varint(s).value) == LEN
  {
    var k := Varint(s).size;
    s[k + Varint(s[k..]).size..FieldLength(s).n]
  }

  /** The strings a message without known fields accepts. */
  predicate Plain(s: bytes)
    decreases |s|
  {
    s == [] ||
    (FieldLength(s).Length? && Number(s) > 0 && Plain(s[FieldLength(s).n..]))
  }

  /** What a decoder makes of the first field: reject it, pass over it, or assign its text. */
  datatype Head = Bad | Passed(n: nat) | Assigned(n: nat, text: bytes)

  function ReadHead(schema: Schema, s: bytes): (h: Head)
    ensures !h.Bad? ==> FieldLength(s) == Length(h.n)
  {
    match FieldLength(s)
    case NoLength => Bad
    case Length(n) =>
      var number := Number(s);
      if number <= 0 then Bad
      else if number !in schema then Passed(n)
      else if WireType(Varint(s).value) != LEN then Bad
      else if schema[number] == Text then Assigned(n, Payload(s))
      else if Plain(Payload(s)) then Passed(n)
      else Bad
  }

  /** Decoding `s` into a message whose authority is `a`. */
  function Decode(schema: Schema, s: bytes, a: bytes): Outcome
    decreases |s|
  {
    if s == [] then Outcome(true, a)
    else
      match ReadHead(schema, s)
      case Bad => Outcome(false, a)
      case Passed(n) => Decode(schema, s[n..], a)
      case Assigned(n, text) => Decode(schema, s[n..], text)
  }

  // ---------------------------------------------------------------- decoding as a grammar

  function TreeNumber(f: Field): int {
    FieldNumber(Value(f.tag))
  }

  /** A well-formed field the decoder accepts. */
  predicate Conforms(schema: Schema, f: Field) {
    var n := TreeNumber(f);
    n > 0 && (n in schema ==> f.LenField? && (schema[n] == Nested ==> Plain(f.payload)))
  }

  predicate AllConform(schema: Schema, fs: seq<Field>) {
    forall i :: 0 <= i < |fs| ==> Conforms(schema, fs[i])
  }

  predicate IsText(schema: Schema, f: Field) {
    f.LenField? && TreeNumber(f) in schema && schema[TreeNumber(f)] == Text
  }

  /** The payload of the last text field, or `a` if there is none. */
  function LastText(schema: Schema, fs: seq<Field>, a: bytes): bytes {
    if fs == [] then a
    else
      var last := fs[|fs| - 1];
      if IsText(schema, last) then last.payload else LastText(schema, fs[..|fs| - 1], a)
  }

  /** `s` splits into well-formed fields that conform to the schema. */
  ghost predicate Accepted(schema: Schema, s: bytes) {
    exists fs :: AllWellFormed(fs) && AllBytes(fs) == s && AllConform(schema, fs)
  }

  lemma TagOfTree(f: Field, t: bytes)
    requires WellFormed(f)
    ensures var s := FieldBytes(f) + t;
            Varint(s) == Word(Value(f.tag), |f.tag|) && FieldLength(s) == Length(|FieldBytes(f)|)
    ensures WireType(Value(f.tag)) == LEN <==> f.LenField?
  {
    hide Reach;
    var v := FieldBytes(f)[|f.tag|..];
    FieldComplete(f, t);
    assert FieldBytes(f) + t == f.tag + (v + t);
    VarintThen(f.tag, v + t);
  }

  lemma PayloadOfTree(f: Field, t: bytes)
    requires WellFormed(f) && f.LenField?
    ensures var s := FieldBytes(f) + t;
            && FieldLength(s).Length? && WireType(Varint(s).value) == LEN
            && Payload(s) == f.payload
  {
    hide Varint, Reach;
    var s, k := FieldBytes(f) + t, |f.tag|;
    TagOfTree(f, t);
    assert s[k..] == f.length + (f.payload + t);
    VarintThen(f.length, f.payload + t);
    assert s == f.tag + f.length + f.payload + t;
  }

  /** The decoder reads the first field exactly as its tree says. */
  lemma HeadOfTree(schema: Schema, f: Field, t: bytes)
    requires WellFormed(f)
    ensures var n := |FieldBytes(f)|;
            ReadHead(schema, FieldBytes(f) + t) ==
              if !Conforms(schema, f) then Bad
              else if IsText(schema, f) then Assigned(n, f.payload)
              else Passed(n)
  {
    hide FieldLength, Plain, Varint, WellFormed, FieldBytes, Payload;
    TagOfTree(f, t);
    if f.LenField? {
      PayloadOfTree(f, t);
    }
  }

  lemma {:induction false} LastTextFirst(schema: Schema, f: Field, fs: seq<Field>, a: bytes)
    ensures LastText(schema, [f] + fs, a) ==
      LastText(schema, fs, if IsText(schema, f) then f.payload else a)
    decreases |fs|
  {
    var gs := [f] + fs;
    if fs != [] {
      assert gs[|gs| - 1] == fs[|fs| - 1];
      assert gs[..|gs| - 1] == [f] + fs[..|fs| - 1];
      LastTextFirst(schema, f, fs[..|fs| - 1], a);
    } else {
      assert gs[..0] == [];
    }
  }

  /** Conforming fields are accepted, and the authority is the payload of the last text field. */
  lemma {:induction false} DecodeFields(schema: Schema, fs: seq<Field>, a: bytes)
    requires AllWellFormed(fs) && AllConform(schema, fs)
    ensures Decode(schema, AllBytes(fs), a) == Outcome(true, LastText(schema, fs, a))
    decreases fs
  {
    if fs != [] {
      var f, rest := fs[0], AllBytes(fs[1..]);
      var b := if IsText(schema, f) then f.payload else a;
      FieldNotEmpty(f);
      HeadOfTree(schema, f, rest);
      assert (FieldBytes(f) + rest)[|FieldBytes(f)|..] == rest;
      DecodeFields(schema, fs[1..], b);
      assert fs == [f] + fs[1..];
      LastTextFirst(schema, f, fs[1..], a);
    }
  }

  /** Whatever is accepted splits into conforming fields. */
  lemma FieldsOf(schema: Schema, s: bytes, a: bytes) returns (fs: seq<Field>)
    requires Decode(schema, s, a).ok
    ensures AllWellFormed(fs) && AllBytes(fs) == s && AllConform(schema, fs)
    decreases |s|
  {
    hide Reach;
    if s == [] {
      fs := [];
    } else {
      var h := ReadHead(schema, s);
      var f := FieldSound(s);
      var gs := FieldsOf(schema, s[h.n..], if h.Passed? then a else h.text);
      assert s == FieldBytes(f) + s[h.n..];
      HeadOfTree(schema, f, s[h.n..]);
      fs := [f] + gs;
      assert fs[1..] == gs;
    }
  }

  /**
   * A decoder accepts exactly the strings that split into well-formed, conforming fields, and
   * then the authority is the payload of the last text field, or the old one.
   */
  lemma DecodeIsGrammar(schema: Schema, s: bytes, a: bytes)
    ensures Decode(schema, s, a).ok <==> Accepted(schema, s)
    ensures forall fs :: AllWellFormed(fs) && AllBytes(fs) == s && AllConform(schema, fs) ==>
      Decode(schema, s, a).authority == LastText(schema, fs, a)
  {
    if Decode(schema, s, a).ok {
      var fs := FieldsOf(schema, s, a);
    }
    forall fs | AllWellFormed(fs) && AllBytes(fs) == s && AllConform(schema, fs)
      ensures Decode(schema, s, a) == Outcome(true, LastText(schema, fs, a))
    {
      DecodeFields(schema, fs, a);
    }
  }

  /** The split is unique, so one split decides acceptance. */
  lemma SplitDecides(schema: Schema, fs: seq<Field>, a: bytes)
    requires AllWellFormed(fs)
    ensures Decode(schema, AllBytes(fs), a).ok <==> AllConform(schema, fs)
  {
    hide Decode;
    if Decode(schema, AllBytes(fs), a).ok {
      var gs := FieldsOf(schema, AllBytes(fs), a);
      UniqueSplit(fs, gs);
    }
    if AllConform(schema, fs) {
      DecodeFields(schema, fs, a);
    }
  }

  /** The acceptance condition spelled out, field by field. */
  lemma AcceptedExactly(schema: Schema, fs: seq<Field>, a: bytes)
    requires AllWellFormed(fs)
    ensures Decode(schema, AllBytes(fs), a).ok <==>
      forall i :: 0 <= i < |fs| ==>
        var n := FieldNumber(Value(fs[i].tag));
        && n > 0
        && (n in schema ==> fs[i].LenField?)
        && (n in schema && schema[n] == Nested ==> Plain(fs[i].payload))
  {
    hide Decode, FieldNumber, Value, Plain;
    SplitDecides(schema, fs, a);
  }

  /** `Plain` is decoding with no known fields. */
  lemma {:induction false} PlainIsEmptySchema(s: bytes, a: bytes)
    ensures Decode(EMPTY, s, a) == Outcome(Plain(s), a)
    decreases |s|
  {
    if s != [] && FieldLength(s).Length? && Number(s) > 0 {
      PlainIsEmptySchema(s[FieldLength(s).n..], a);
    }
  }

  /** The payload of a nested field is valid exactly when it splits into fields of positive number. */
  lemma {:induction false} PlainIsGrammar(s: bytes)
    ensures Plain(s) <==>
      exists fs :: AllWellFormed(fs) && AllBytes(fs) == s && forall i :: 0 <= i < |fs| ==> TreeNumber(fs[i]) > 0
  {
    hide Plain, Decode;
    PlainIsEmptySchema(s, []);
    DecodeIsGrammar(EMPTY, s, []);
    if Plain(s) {
      var fs :| AllWellFormed(fs) && AllBytes(fs) == s && AllConform(EMPTY, fs);
      assert forall i :: 0 <= i < |fs| ==> Conforms(EMPTY, fs[i]) && TreeNumber(fs[i]) > 0;
    }
    forall fs | AllWellFormed(fs) && AllBytes(fs) == s && forall i :: 0 <= i < |fs| ==> TreeNumber(fs[i]) > 0
      ensures Plain(s)
    {
      assert AllConform(EMPTY, fs);
    }
  }

  // ---------------------------------------------------------------- last one wins

  lemma VarintExtends(s: bytes, t: bytes)
    requires Varint(s).Word?
    ensures Varint(s + t) == Varint(s)
  {
    var n := Varint(s).size;
    VarintAtStart(s);
    assert (s + t)[..n] == s[..n];
    VarintIsPrefix(s, n);
    VarintIsPrefix(s + t, n);
  }

  /** The bytes after a field do not change what a decoder makes of it. */
  lemma HeadThen(schema: Schema, s: bytes, t: bytes)
    requires !ReadHead(schema, s).Bad?
    ensures ReadHead(schema, s + t) == ReadHead(schema, s)
  {
    hide Varint, Plain;
    FieldThen(s, t);
    VarintExtends(s, t);
    if WireType(Varint(s).value) == LEN {
      PayloadThen(s, t);
    }
  }

  lemma PayloadThen(s: bytes, t: bytes)
    requires FieldLength(s).Length? && WireType(Varint(s).value) == LEN
    ensures Varint(s + t) == Varint(s) && FieldLength(s + t) == FieldLength(s)
    ensures Payload(s + t) == Payload(s)
  {
    hide Varint;
    FieldThen(s, t);
    VarintExtends(s, t);
    var k := Varint(s).size;
    assert (s + t)[k..] == s[k..] + t;
    VarintExtends(s[k..], t);
  }

  /** Decoding a concatenation is decoding its parts one after the other. */
  lemma {:induction false} Merge(schema: Schema, s: bytes, t: bytes, a: bytes)
    requires Decode(schema, s, a).ok
    ensures Decode(schema, s + t, a) == Decode(schema, t, Decode(schema, s, a).authority)
    decreases |s|
  {
    hide ReadHead, FieldLength;
    if s == [] {
      assert s + t == t;
    } else {
      var h := ReadHead(schema, s);
      HeadThen(schema, s, t);
      assert (s + t)[h.n..] == s[h.n..] + t;
      Merge(schema, s[h.n..], t, if h.Passed? then a else h.text);
    }
  }

  /** A field the decoder reads is read the same without what follows it. */
  lemma HeadAlone(schema: Schema, s: bytes)
    requires !ReadHead(schema, s).Bad?
    ensures ReadHead(schema, s[..ReadHead(schema, s).n]) == ReadHead(schema, s)
  {
    hide FieldBytes, WellFormed;
    var n := ReadHead(schema, s).n;
    var f := FieldSound(s);
    assert s == FieldBytes(f) + s[n..] && FieldBytes(f) + [] == s[..n];
    HeadOfTree(schema, f, s[n..]);
    HeadOfTree(schema, f, []);
  }

  lemma DecodeOne(schema: Schema, s: bytes, a: bytes)
    requires !ReadHead(schema, s).Bad?
    ensures var h := ReadHead(schema, s);
            Decode(schema, s[..h.n], a) == Outcome(true, if h.Passed? then a else h.text)
  {
    hide ReadHead;
    var n := ReadHead(schema, s).n;
    HeadAlone(schema, s);
    assert s[..n] != [] && s[..n][n..] == [];
  }

  /**
   * What a failed decoding leaves behind: the receiver holds what decoding the fields before the
   * first rejected one would have made of it. `k` is where that field starts.
   */
  lemma {:induction false} FailureKeepsPrefix(schema: Schema, s: bytes, a: bytes) returns (k: nat)
    ensures k <= |s|
    ensures Decode(schema, s[..k], a) == Outcome(true, Decode(schema, s, a).authority)
    ensures if Decode(schema, s, a).ok then k == |s| else k < |s| && ReadHead(schema, s[k..]).Bad?
    decreases |s|
  {
    hide ReadHead;
    if s == [] || ReadHead(schema, s).Bad? {
      k := 0;
      assert s[..0] == [] && s[0..] == s;
    } else {
      var h := ReadHead(schema, s);
      var rest, b := s[h.n..], if h.Passed? then a else h.text;
      var j := FailureKeepsPrefix(schema, rest, b);
      k := h.n + j;
      DecodeOne(schema, s, a);
      Merge(schema, s[..h.n], rest[..j], a);
      assert s[..k] == s[..h.n] + rest[..j] && s[k..] == rest[j..];
    }
  }

  // ---------------------------------------------------------------- field order

  /** The payloads of the text fields, in order. */
  function Texts(schema: Schema, fs: seq<Field>): seq<bytes> {
    if fs == [] then []
    else (if IsText(schema, fs[0]) then [fs[0].payload] else []) + Texts(schema, fs[1..])
  }

  lemma {:induction false} LastOfTexts(schema: Schema, fs: seq<Field>, a: bytes)
    ensures var ts := Texts(schema, fs);
            LastText(schema, fs, a) == if ts == [] then a else ts[|ts| - 1]
    decreases |fs|
  {
    if fs != [] {
      assert fs == [fs[0]] + fs[1..];
      LastTextFirst(schema, fs[0], fs[1..], a);
      LastOfTexts(schema, fs[1..], if IsText(schema, fs[0]) then fs[0].payload else a);
    }
  }

  /** Fields may come in any order, as long as the text fields keep theirs. */
  lemma FieldOrder(schema: Schema, fs: seq<Field>, gs: seq<Field>, a: bytes)
    requires AllWellFormed(fs) && AllWellFormed(gs)
    requires multiset(fs) == multiset(gs) && Texts(schema, fs) == Texts(schema, gs)
    ensures Decode(schema, AllBytes(fs), a).ok <==> Decode(schema, AllBytes(gs), a).ok
    ensures Decode(schema, AllBytes(fs), a).ok ==>
      Decode(schema, AllBytes(fs), a) == Decode(schema, AllBytes(gs), a)
  {
    hide Decode, Conforms;
    SplitDecides(schema, fs, a);
    SplitDecides(schema, gs, a);
    if AllConform(schema, fs) {
      SameConform(schema, fs, gs);
    } else if AllConform(schema, gs) {
      SameConform(schema, gs, fs);
    }
    if AllConform(schema, fs) {
      DecodeFields(schema, fs, a);
      DecodeFields(schema, gs, a);
      LastOfTexts(schema, fs, a);
      LastOfTexts(schema, gs, a);
    }
  }

  lemma SameConform(schema: Schema, fs: seq<Field>, gs: seq<Field>)
    requires multiset(fs) == multiset(gs) && AllConform(schema, fs)
    ensures AllConform(schema, gs)
  {
    hide Conforms;
    forall i | 0 <= i < |gs|
      ensures Conforms(schema, gs[i])
    {
      assert gs[i] in multiset(gs);
      assert gs[i] in fs;
    }
  }

  // ---------------------------------------------------------------- unknown fields

  /** The fields whose numbers the schema knows. */
  function Known(schema: Schema, fs: seq<Field>): seq<Field> {
    if fs == [] then []
    else (if TreeNumber(fs[0]) in schema then [fs[0]] else []) + Known(schema, fs[1..])
  }

  /** Dropping every unknown field at once changes nothing. */
  lemma DropUnknown(schema: Schema, fs: seq<Field>, a: bytes)
    requires AllWellFormed(fs) && AllConform(schema, fs)
    ensures Decode(schema, AllBytes(Known(schema, fs)), a) == Decode(schema, AllBytes(fs), a)
  {
    hide Decode;
    var gs := Known(schema, fs);
    KnownFields(schema, fs);
    DecodeFields(schema, fs, a);
    DecodeFields(schema, gs, a);
    LastOfTexts(schema, fs, a);
    LastOfTexts(schema, gs, a);
  }

  lemma {:induction false} KnownFields(schema: Schema, fs: seq<Field>)
    requires AllWellFormed(fs) && AllConform(schema, fs)
    ensures var gs := Known(schema, fs);
            AllWellFormed(gs) && AllConform(schema, gs) && Texts(schema, gs) == Texts(schema, fs)
    decreases |fs|
  {
    hide WellFormed, Conforms;
    if fs != [] {
      var f, gs := fs[0], Known(schema, fs[1..]);
      KnownFields(schema, fs[1..]);
      if TreeNumber(f) in schema {
        var hs := [f] + gs;
        assert hs[0] == f && hs[1..] == gs;
        assert Texts(schema, hs) == Texts(schema, fs);
      } else {
        assert [] + gs == gs;
        assert !IsText(schema, f);
      }
    }
  }

  /** One field, of a positive number the schema does not know. */
  predicate Unknown(schema: Schema, u: bytes) {
    u != [] && FieldLength(u) == Length(|u|) && Number(u) > 0 && Number(u) !in schema
  }

  /** An unknown field, groups of any nesting included, can be inserted between any two fields. */
  lemma UnknownIsTransparent(schema: Schema, s: bytes, u: bytes, t: bytes, a: bytes)
    requires Decode(schema, s, a).ok && Unknown(schema, u)
    ensures Decode(schema, s + u + t, a) == Decode(schema, s + t, a)
  {
    hide ReadHead;
    var b := Decode(schema, s, a).authority;
    assert ReadHead(schema, u) == Passed(|u|) by { UnknownHead(schema, u); }
    assert u[|u|..] == [];
    assert Decode(schema, u, b) == Outcome(true, b);
    assert s + u + t == s + (u + t);
    Merge(schema, s, u + t, a);
    Merge(schema, u, t, b);
    Merge(schema, s, t, a);
  }

  lemma UnknownHead(schema: Schema, u: bytes)
    requires Unknown(schema, u)
    ensures ReadHead(schema, u) == Passed(|u|)
  {
  }

  // ---------------------------------------------------------------- projection

  /** `p` knows no more fields than `q`, and asks no more of them. */
  ghost predicate Narrower(p: Schema, q: Schema) {
    forall n :: n in p ==> n in q && (p[n] == Text || p[n] == q[n])
  }

  ghost predicate SameTexts(p: Schema, q: Schema) {
    forall n :: (n in p && p[n] == Text) <==> (n in q && q[n] == Text)
  }

  /** A decoder that asks less accepts more; with the same text fields it decodes the same. */
  lemma {:induction false} Project(p: Schema, q: Schema, s: bytes, a: bytes, b: bytes)
    requires Narrower(p, q) && Decode(q, s, a).ok
    ensures Decode(p, s, b).ok
    ensures SameTexts(p, q) && a == b ==> Decode(p, s, b) == Decode(q, s, a)
    decreases |s|
  {
    if s != [] {
      var h, g := ReadHead(q, s), ReadHead(p, s);
      ProjectHead(p, q, s);
      Project(p, q, s[h.n..], if h.Passed? then a else h.text, if g.Passed? then b else g.text);
    }
  }

  lemma ProjectHead(p: Schema, q: Schema, s: bytes)
    requires Narrower(p, q) && !ReadHead(q, s).Bad?
    ensures !ReadHead(p, s).Bad?
    ensures SameTexts(p, q) ==> ReadHead(p, s) == ReadHead(q, s)
  {
  }

  // ---------------------------------------------------------------- truncation

  /** A split of a prefix is a prefix of the split. */
  lemma {:induction false} SplitOfPrefix(gs: seq<Field>, t: bytes, fs: seq<Field>)
    requires AllWellFormed(fs) && AllWellFormed(gs) && AllBytes(gs) + t == AllBytes(fs)
    ensures |gs| <= |fs| && gs == fs[..|gs|]
    decreases gs
  {
    hide FieldBytes, WellFormed;
    if gs != [] {
      FirstField(gs, t);
      FieldNotEmpty(gs[0]);
      assert fs != [];
      UniqueField(gs[0], AllBytes(gs[1..]) + t, fs[0], AllBytes(fs[1..]));
      SplitOfPrefix(gs[1..], t, fs[1..]);
      assert fs[..|gs|] == [fs[0]] + fs[1..][..|gs| - 1];
    }
  }

  lemma {:induction false} FirstFields(fs: seq<Field>, j: nat)
    requires AllWellFormed(fs) && j <= |fs|
    ensures AllWellFormed(fs[..j]) && AllBytes(fs[..j]) <= AllBytes(fs)
    decreases j
  {
    if j > 0 {
      FirstFields(fs[1..], j - 1);
      assert fs[..j][1..] == fs[1..][..j - 1];
    }
  }

  lemma CutBetweenFields(schema: Schema, fs: seq<Field>, j: nat, a: bytes)
    requires AllWellFormed(fs) && AllConform(schema, fs) && j <= |fs|
    ensures AllBytes(fs[..j]) <= AllBytes(fs)
    ensures Decode(schema, AllBytes(fs[..j]), a).ok
  {
    hide Decode, WellFormed;
    FirstFields(fs, j);
    DecodeFields(schema, fs[..j], a);
  }

  lemma AcceptedPrefix(schema: Schema, fs: seq<Field>, k: nat, a: bytes) returns (j: nat)
    requires AllWellFormed(fs) && k <= |AllBytes(fs)|
    requires Decode(schema, AllBytes(fs)[..k], a).ok
    ensures j <= |fs| && AllBytes(fs[..j]) == AllBytes(fs)[..k]
  {
    hide Decode, WellFormed;
    var s := AllBytes(fs);
    var gs := FieldsOf(schema, s[..k], a);
    assert AllBytes(gs) + s[k..] == s;
    SplitOfPrefix(gs, s[k..], fs);
    j := |gs|;
  }

  /** A truncated message is accepted exactly when it was cut between two fields. */
  lemma Truncation(schema: Schema, fs: seq<Field>, k: nat, a: bytes)
    requires AllWellFormed(fs) && AllConform(schema, fs) && k <= |AllBytes(fs)|
    ensures Decode(schema, AllBytes(fs)[..k], a).ok <==>
      exists j :: 0 <= j <= |fs| && AllBytes(fs[..j]) == AllBytes(fs)[..k]
  {
    hide Decode, AllBytes, WellFormed;
    if Decode(schema, AllBytes(fs)[..k], a).ok {
      var j := AcceptedPrefix(schema, fs, k, a);
    }
    forall j | 0 <= j <= |fs| && AllBytes(fs[..j]) == AllBytes(fs)[..k]
      ensures Decode(schema, AllBytes(fs)[..k], a).ok
    {
      CutBetweenFields(schema, fs, j, a);
    }
  }
}
