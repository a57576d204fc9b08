/**
 * What `Marshal` writes, as byte strings, and how writing and reading fit together: round
 * trips, canonical encodings, truncated encodings, and reading one message as another.
 */
module Encodings {
  import opened Words
  import opened Varints
  import opened Wire
  import opened Grammar
  import opened Schemas
  import opened Decoding
  import opened ParamsMessage

  const AUTHORITY_TAG: byte := 0x0a
  const MSG_PARAMS_TAG: byte := 0x12
  const PARAMS_TAG: byte := 0x0a

  // ---------------------------------------------------------------- encodings

  /** A length-delimited field with a one-byte tag. */
  function EncodeLen(tag: byte, payload: bytes): bytes {
    [tag] + (EncodeVarint(|payload|) + payload)
  }

  lemma EncodeLenParts(tag: byte, payload: bytes)
    ensures EncodeLen(tag, payload) == [tag] + EncodeVarint(|payload|) + payload
  {
  }

  /** A string field is left out when empty. */
  function EncodeText(text: bytes): bytes {
    if text == [] then [] else EncodeLen(AUTHORITY_TAG, text)
  }

  /** `MsgUpdateParams`: the embedded `Params` is always written. */
  function EncodeMsg(authority: bytes): bytes {
    EncodeText(authority) + EncodeLen(MSG_PARAMS_TAG, EncodeParams())
  }

  /** `Module` */
  function EncodeModule(authority: bytes): bytes {
    EncodeText(authority)
  }

  /** `GenesisState` and `QueryParamsResponse` */
  function EncodeHolder(): bytes {
    EncodeLen(PARAMS_TAG, EncodeParams())
  }

  // ---------------------------------------------------------------- the trees written

  function LenTree(tag: byte, payload: bytes): Field {
    LenField([tag], EncodeVarint(|payload|), payload)
  }

  function TextTrees(text: bytes): seq<Field> {
    if text == [] then [] else [LenTree(AUTHORITY_TAG, text)]
  }

  function MsgTrees(authority: bytes): seq<Field> {
    TextTrees(authority) + [LenTree(MSG_PARAMS_TAG, EncodeParams())]
  }

  lemma OneByteValue(b: byte)
    ensures Groups([b]) == b % 128
  {
  }

  lemma OneByteTag(tag: byte)
    requires tag < 128
    ensures IsTag([tag], tag % 8) && FieldNumber(Value([tag])) == tag / 8
  {
    hide Groups, FieldNumber;
    OneByteValue(tag);
    assert Value([tag]) == tag;
    SmallNumber(tag);
  }

  lemma SmallNumber(tag: byte)
    ensures FieldNumber(tag) == tag / 8
  {
  }

  lemma LenTreeIsWritten(tag: byte, payload: bytes)
    requires tag < 128 && tag % 8 == LEN && |payload| <= MAX_INT
    ensures WellFormed(LenTree(tag, payload)) && FieldBytes(LenTree(tag, payload)) == EncodeLen(tag, payload)
    ensures TreeNumber(LenTree(tag, payload)) == tag / 8
  {
    hide EncodeVarint, IsTag, IsVarint, FieldNumber;
    OneByteTag(tag);
    EncodeIsVarint(|payload|);
  }

  lemma AllBytesOne(f: Field)
    ensures AllBytes([f]) == FieldBytes(f)
  {
    assert [f][1..] == [];
  }

  lemma TextIsWritten(text: bytes)
    requires |text| <= MAX_INT
    ensures AllWellFormed(TextTrees(text)) && AllBytes(TextTrees(text)) == EncodeText(text)
    ensures text != [] ==> TreeNumber(TextTrees(text)[0]) == 1
  {
    if text != [] {
      LenTreeIsWritten(AUTHORITY_TAG, text);
      AllBytesOne(LenTree(AUTHORITY_TAG, text));
    }
  }

  /** The encoding of a message is the bytes of its fields, all of which conform. */
  lemma MsgIsWritten(authority: bytes)
    requires |authority| <= MAX_INT
    ensures AllWellFormed(MsgTrees(authority)) && AllConform(MSG_UPDATE_PARAMS, MsgTrees(authority))
    ensures AllBytes(MsgTrees(authority)) == EncodeMsg(authority)
  {
    hide EncodeLen, EncodeVarint, WellFormed, FieldBytes, Plain;
    var p := LenTree(MSG_PARAMS_TAG, EncodeParams());
    LenTreeIsWritten(MSG_PARAMS_TAG, EncodeParams());
    TextIsWritten(authority);
    AllBytesOne(p);
    assert AllWellFormed([]) && [p][1..] == [];
    assert Plain(EncodeParams()) by { PlainNothing(); }
    var fs := MsgTrees(authority);
    if authority != [] {
      var f := LenTree(AUTHORITY_TAG, authority);
      AllBytesOne(f);
      assert fs[0] == f && fs[1..] == [p];
    } else {
      assert fs == [p];
    }
  }

  lemma PlainNothing()
    ensures Plain([])
  {
  }

  lemma MsgLastText(authority: bytes, receiver: bytes)
    requires |authority| <= MAX_INT
    ensures LastText(MSG_UPDATE_PARAMS, MsgTrees(authority), receiver) ==
      if authority == [] then receiver else authority
  {
    hide EncodeVarint, WellFormed, FieldBytes;
    var p := LenTree(MSG_PARAMS_TAG, EncodeParams());
    LenTreeIsWritten(MSG_PARAMS_TAG, EncodeParams());
    TextIsWritten(authority);
    var fs, gs := MsgTrees(authority), TextTrees(authority);
    assert fs[|fs| - 1] == p && fs[..|fs| - 1] == gs;
    if authority != [] {
      assert gs[..0] == [];
    }
  }

  /**
   * Which fields `MsgUpdateParams` writes: a non-empty authority as field 1, then always the
   * `Params` as field 2, and no field the message does not have.
   */
  lemma MsgFieldsWritten(authority: bytes)
    requires |authority| <= MAX_INT
    ensures var fs := MsgTrees(authority);
            && |fs| == (if authority == [] then 1 else 2)
            && Known(MSG_UPDATE_PARAMS, fs) == fs
            && TreeNumber(fs[|fs| - 1]) == 2 && fs[|fs| - 1].LenField?
            && fs[|fs| - 1].payload == EncodeParams()
            && (authority != [] ==>
                  TreeNumber(fs[0]) == 1 && fs[0].LenField? && fs[0].payload == authority)
  {
    hide EncodeVarint, TreeNumber;
    LenTreeIsWritten(MSG_PARAMS_TAG, EncodeParams());
    var p := LenTree(MSG_PARAMS_TAG, EncodeParams());
    KnownOne(MSG_UPDATE_PARAMS, p);
    if authority != [] {
      LenTreeIsWritten(AUTHORITY_TAG, authority);
      assert MsgTrees(authority)[1..] == [p];
    } else {
      assert MsgTrees(authority) == [p];
    }
  }

  lemma KnownOne(schema: Schema, f: Field)
    ensures Known(schema, [f]) == if TreeNumber(f) in schema then [f] else []
  {
    assert [f][1..] == [];
  }

  /** `Module` writes a non-empty authority as field 1, and nothing else. */
  lemma ModuleFieldsWritten(authority: bytes)
    requires |authority| <= MAX_INT
    ensures var fs := TextTrees(authority);
            && AllWellFormed(fs) && AllConform(MODULE, fs) && AllBytes(fs) == EncodeModule(authority)
            && |fs| == (if authority == [] then 0 else 1)
            && Known(MODULE, fs) == fs
            && (authority != [] ==>
                  TreeNumber(fs[0]) == 1 && fs[0].LenField? && fs[0].payload == authority)
  {
    hide EncodeVarint, TreeNumber, WellFormed, FieldBytes, EncodeText;
    TextIsWritten(authority);
    if authority != [] {
      LenTreeIsWritten(AUTHORITY_TAG, authority);
      KnownOne(MODULE, LenTree(AUTHORITY_TAG, authority));
    }
  }

  /** `GenesisState` and `QueryParamsResponse` write their `Params` as field 1, and nothing else. */
  lemma HolderFieldsWritten()
    ensures var f := LenTree(PARAMS_TAG, EncodeParams());
            && WellFormed(f) && Conforms(PARAMS_HOLDER, f) && AllBytes([f]) == EncodeHolder()
            && TreeNumber(f) == 1 && TreeNumber(f) in PARAMS_HOLDER
            && f.payload == EncodeParams()
    ensures EncodeHolder() == [0x0a, 0x00]
  {
    hide TreeNumber, WellFormed, FieldBytes;
    LenTreeIsWritten(PARAMS_TAG, EncodeParams());
    AllBytesOne(LenTree(PARAMS_TAG, EncodeParams()));
  }

  lemma EmptyLen(tag: byte)
    ensures EncodeLen(tag, []) == [tag, 0x00]
  {
    hide EncodeVarint;
    EncodeStep(0);
  }

  /** The bytes themselves. */
  lemma BytesWritten(authority: bytes)
    ensures EncodeModule(authority) ==
      if authority == [] then [] else [0x0a] + EncodeVarint(|authority|) + authority
    ensures EncodeMsg(authority) == EncodeModule(authority) + [0x12, 0x00]
  {
    hide EncodeVarint, EncodeLen;
    EmptyLen(MSG_PARAMS_TAG);
    EncodeLenParts(AUTHORITY_TAG, authority);
  }

  // ---------------------------------------------------------------- round trips

  /**
   * Decoding what `Marshal` wrote. Into a receiver whose authority is `receiver` it gives back the
   * message exactly when the message has an authority or the receiver has none: an empty
   * authority is not written, and `Unmarshal` does not reset its receiver.
   */
  lemma MsgRoundTrip(authority: bytes, receiver: bytes)
    requires |authority| <= MAX_INT
    ensures var out := Decode(MSG_UPDATE_PARAMS, EncodeMsg(authority), receiver);
            && out.ok
            && (out.authority == authority <==> authority != [] || receiver == [])
            && (authority == [] ==> out.authority == receiver)
  {
    hide Decode, LastText, AllWellFormed, AllConform;
    MsgIsWritten(authority);
    MsgLastText(authority, receiver);
    DecodeFields(MSG_UPDATE_PARAMS, MsgTrees(authority), receiver);
  }

  lemma ModuleRoundTrip(authority: bytes, receiver: bytes)
    requires |authority| <= MAX_INT
    ensures var out := Decode(MODULE, EncodeModule(authority), receiver);
            && out.ok
            && (out.authority == authority <==> authority != [] || receiver == [])
            && (authority == [] ==> out.authority == receiver)
  {
    var fs := TextTrees(authority);
    TextIsWritten(authority);
    DecodeFields(MODULE, fs, receiver);
    if authority != [] {
      assert fs[..0] == [];
    }
  }

  lemma HolderRoundTrip(a: bytes)
    ensures Decode(PARAMS_HOLDER, EncodeHolder(), a) == Outcome(true, a)
  {
    var f := LenTree(PARAMS_TAG, EncodeParams());
    LenTreeIsWritten(PARAMS_TAG, EncodeParams());
    AllBytesOne(f);
    DecodeFields(PARAMS_HOLDER, [f], a);
    assert [f][..0] == [];
  }

  /** Different messages are written differently. */
  lemma MarshalIsInjective(a: bytes, b: bytes)
    requires |a| <= MAX_INT && |b| <= MAX_INT
    ensures EncodeMsg(a) == EncodeMsg(b) ==> a == b
    ensures EncodeModule(a) == EncodeModule(b) ==> a == b
  {
    MsgRoundTrip(a, []);
    MsgRoundTrip(b, []);
    ModuleRoundTrip(a, []);
    ModuleRoundTrip(b, []);
  }

  /** Two encodings one after the other: the second authority wins, unless it was not written. */
  lemma LaterMarshalWins(a: bytes, b: bytes, receiver: bytes)
    requires |a| <= MAX_INT && |b| <= MAX_INT
    ensures Decode(MSG_UPDATE_PARAMS, EncodeMsg(a) + EncodeMsg(b), receiver) ==
      Outcome(true, if b != [] then b else if a != [] then a else receiver)
  {
    hide Decode;
    MsgRoundTrip(a, receiver);
    MsgRoundTrip(b, Decode(MSG_UPDATE_PARAMS, EncodeMsg(a), receiver).authority);
    Merge(MSG_UPDATE_PARAMS, EncodeMsg(a), EncodeMsg(b), receiver);
  }

  // ---------------------------------------------------------------- canonical encodings

  /** `s` has a field of this number among the fields it splits into. */
  predicate Contains(s: bytes, number: int)
    decreases |s|
  {
    s != [] && FieldLength(s).Length? &&
    (Number(s) == number || Contains(s[FieldLength(s).n..], number))
  }

  /** A length-delimited field takes at least as many bytes as the writer would use. */
  lemma LenFieldCost(s: bytes)
    requires FieldLength(s).Length? && WireType(Varint(s).value) == LEN
    ensures FieldLength(s).n >= 2
    ensures |EncodeText(Payload(s))| <= FieldLength(s).n
  {
    hide EncodeVarint, Sov;
    var k := Varint(s).size;
    var rest := s[k..];
    var w := Varint(rest);
    VarintAtStart(rest);
    ShortestVarint(rest[..w.size], w.value);
    SovIsExact(w.value);
  }

  /** Every byte string that sets an authority is at least as long as the writer's field for it. */
  lemma {:induction false} TextCost(s: bytes, a: bytes)
    requires Decode(MSG_UPDATE_PARAMS, s, a).ok
    ensures var r := Decode(MSG_UPDATE_PARAMS, s, a).authority;
            var extra := if Contains(s, 2) then 2 else 0;
            (r == a && extra <= |s|) || |EncodeText(r)| + extra <= |s|
    decreases |s|
  {
    hide Varint, EncodeText;
    if s != [] {
      var h := ReadHead(MSG_UPDATE_PARAMS, s);
      var b := if h.Passed? then a else h.text;
      if Number(s) in MSG_UPDATE_PARAMS {
        LenFieldCost(s);
      }
      TextCost(s[h.n..], b);
    }
  }

  /** The number of fields `s` splits into. */
  function Count(s: bytes): nat
    decreases |s|
  {
    if s == [] || FieldLength(s).NoLength? then 0 else 1 + Count(s[FieldLength(s).n..])
  }

  /** A field takes at least two bytes: its tag, and a value, a length or an end-group tag. */
  lemma FieldTakesTwo(s: bytes)
    requires FieldLength(s).Length?
    ensures FieldLength(s).n >= 2
  {
    hide Varint, GroupLength;
  }

  /** Each field besides the one that set the authority takes at least two bytes of its own. */
  lemma {:induction false} FieldCost(s: bytes, a: bytes)
    requires Decode(MSG_UPDATE_PARAMS, s, a).ok
    ensures var r := Decode(MSG_UPDATE_PARAMS, s, a).authority;
            (r == a && 2 * Count(s) <= |s|) || |EncodeText(r)| + 2 * (Count(s) - 1) <= |s|
    decreases |s|
  {
    hide Reach, Varint, EncodeText, Plain;
    if s != [] {
      var h := ReadHead(MSG_UPDATE_PARAMS, s);
      FieldTakesTwo(s);
      if h.Assigned? {
        LenFieldCost(s);
      }
      FieldCost(s[h.n..], if h.Passed? then a else h.text);
    }
  }

  /**
   * Re-encoding whatever was decoded into a reset message: it decodes to the same message, and
   * encoding again changes nothing. It grows by at most the two bytes of an absent `Params`, and
   * exactly in two cases: on the empty input, and on an input that is one authority field written
   * with at most one byte more than the writer would use. In particular it never grows when the
   * input has a field 2.
   */
  lemma Canonicalisation(s: bytes)
    requires |s| <= MAX_INT && Decode(MSG_UPDATE_PARAMS, s, []).ok
    ensures var r := Decode(MSG_UPDATE_PARAMS, s, []).authority;
            var c := EncodeMsg(r);
            && Decode(MSG_UPDATE_PARAMS, c, []) == Outcome(true, r)
            && EncodeMsg(Decode(MSG_UPDATE_PARAMS, c, []).authority) == c
            && |c| <= |s| + 2
            && (|c| > |s| <==> s == [] || (r != [] && Count(s) == 1 && |s| <= |EncodeText(r)| + 1))
            && (Contains(s, 2) ==> |c| <= |s|)
  {
    hide Decode, Contains;
    var r := Decode(MSG_UPDATE_PARAMS, s, []).authority;
    TextCost(s, []);
    FieldCost(s, []);
    Counted(s, []);
    ParamsCost();
    assert |r| <= |EncodeText(r)|;
    MsgRoundTrip(r, []);
  }

  /** Only the empty input has no field, and then nothing is assigned. */
  lemma Counted(s: bytes, a: bytes)
    requires Decode(MSG_UPDATE_PARAMS, s, a).ok
    ensures Count(s) == 0 <==> s == []
    ensures s == [] ==> Decode(MSG_UPDATE_PARAMS, s, a).authority == a
  {
    hide Reach, Plain;
  }

  lemma ParamsCost()
    ensures |EncodeLen(MSG_PARAMS_TAG, EncodeParams())| == 2
  {
  }

  /** The two bytes are needed: the empty input decodes to the reset message, written in two. */
  lemma CanonicalisationIsTight()
    ensures Decode(MSG_UPDATE_PARAMS, [], []) == Outcome(true, [])
    ensures |EncodeMsg([])| == 2
  {
    Canonicalisation([]);
    ParamsCost();
  }

  /** Whatever the schema, an authority that decoding sets was paid for in full. */
  lemma {:induction false} AuthorityCost(schema: Schema, s: bytes, a: bytes)
    requires Decode(schema, s, a).ok
    ensures var r := Decode(schema, s, a).authority;
            r == a || |EncodeText(r)| <= |s|
    decreases |s|
  {
    hide Reach, Varint, EncodeText, Plain;
    if s != [] {
      var h := ReadHead(schema, s);
      if h.Assigned? {
        LenFieldCost(s);
      }
      AuthorityCost(schema, s[h.n..], if h.Passed? then a else h.text);
    }
  }

  /**
   * `Module` writes the shortest input that decodes to the message: re-encoding what was decoded
   * into a reset `Module` decodes to the same message, is stable, and is never longer than the
   * input.
   */
  lemma ModuleCanonicalisation(s: bytes)
    requires |s| <= MAX_INT && Decode(MODULE, s, []).ok
    ensures var r := Decode(MODULE, s, []).authority;
            var c := EncodeModule(r);
            && Decode(MODULE, c, []) == Outcome(true, r)
            && EncodeModule(Decode(MODULE, c, []).authority) == c
            && |c| <= |s|
  {
    hide Decode;
    var r := Decode(MODULE, s, []).authority;
    AuthorityCost(MODULE, s, []);
    assert |r| <= |EncodeText(r)|;
    ModuleRoundTrip(r, []);
  }

  /** `GenesisState` writes the shortest accepted input that has a field 1. */
  lemma HolderIsShortest(s: bytes, a: bytes)
    requires Decode(PARAMS_HOLDER, s, a).ok && Contains(s, 1)
    ensures |EncodeHolder()| <= |s|
  {
    hide Reach;
    FieldTakesTwo(s);
    HolderFieldsWritten();
  }

  // ---------------------------------------------------------------- truncation

  /** A truncated `Marshal` output is accepted only when cut at one of its field boundaries. */
  lemma MarshalTruncated(authority: bytes, k: nat, a: bytes)
    requires |authority| <= MAX_INT && k <= |EncodeMsg(authority)|
    ensures Decode(MSG_UPDATE_PARAMS, EncodeMsg(authority)[..k], a).ok <==>
      k in {0, |EncodeText(authority)|, |EncodeMsg(authority)|}
  {
    hide Decode, EncodeText, LenTree;
    var fs := MsgTrees(authority);
    var s := EncodeMsg(authority);
    MsgIsWritten(authority);
    TextIsWritten(authority);
    Truncation(MSG_UPDATE_PARAMS, fs, k, a);
    var n := |TextTrees(authority)|;
    assert fs[..0] == [] && fs[..n] == TextTrees(authority) && fs[..n + 1] == fs;
    assert s[..0] == [] && s[..|EncodeText(authority)|] == EncodeText(authority) && s[..|s|] == s;
    forall j | 0 <= j <= |fs| && AllBytes(fs[..j]) == s[..k]
      ensures k in {0, |EncodeText(authority)|, |s|}
    {
      assert j in {0, n, n + 1};
    }
  }

  /** A truncated encoding of a `Module` is accepted only when nothing or everything is left. */
  lemma ModuleTruncated(authority: bytes, k: nat, a: bytes)
    requires |authority| <= MAX_INT && k <= |EncodeModule(authority)|
    ensures Decode(MODULE, EncodeModule(authority)[..k], a).ok <==> k in {0, |EncodeModule(authority)|}
  {
    hide Decode, EncodeModule, LenTree;
    var fs, s := TextTrees(authority), EncodeModule(authority);
    ModuleFieldsWritten(authority);
    Truncation(MODULE, fs, k, a);
    assert fs[..0] == [] && fs[..|fs|] == fs && s[..0] == [] && s[..|s|] == s;
    forall j | 0 <= j <= |fs| && AllBytes(fs[..j]) == s[..k]
      ensures k in {0, |s|}
    {
      assert j in {0, |fs|};
    }
  }

  /** The same for `GenesisState` and `QueryParamsResponse`. */
  lemma HolderTruncated(k: nat, a: bytes)
    requires k <= |EncodeHolder()|
    ensures Decode(PARAMS_HOLDER, EncodeHolder()[..k], a).ok <==> k in {0, |EncodeHolder()|}
  {
    hide Decode, EncodeHolder, LenTree, WellFormed, Conforms;
    var f := LenTree(PARAMS_TAG, EncodeParams());
    var fs, s := [f], EncodeHolder();
    HolderFieldsWritten();
    assert fs[1..] == [] && AllWellFormed([]) && AllWellFormed(fs) && AllConform(PARAMS_HOLDER, fs);
    Truncation(PARAMS_HOLDER, fs, k, a);
    assert fs[..0] == [] && fs[..1] == fs && s[..0] == [] && s[..|s|] == s;
    forall j | 0 <= j <= 1 && AllBytes(fs[..j]) == s[..k]
      ensures k in {0, |s|}
    {
      assert j in {0, 1};
    }
  }

  // ---------------------------------------------------------------- reading one message as another

  /** Whatever `MsgUpdateParams` accepts, `Module` accepts, with the same authority. */
  lemma {:induction false} MsgAsModule(s: bytes, a: bytes)
    requires Decode(MSG_UPDATE_PARAMS, s, a).ok
    ensures Decode(MODULE, s, a) == Decode(MSG_UPDATE_PARAMS, s, a)
  {
    Project(MODULE, MSG_UPDATE_PARAMS, s, a, a);
  }

  /**
   * Whatever `GenesisState` accepts, `Module` accepts, taking the payload of the last embedded
   * `Params` for its authority.
   */
  lemma {:induction false} GenesisAsModule(s: bytes, a: bytes, b: bytes)
    requires Decode(PARAMS_HOLDER, s, a).ok
    ensures Decode(MODULE, s, b).ok
    ensures forall fs :: AllWellFormed(fs) && AllBytes(fs) == s ==>
      Decode(MODULE, s, b).authority == LastText(MODULE, fs, b)
  {
    hide Decode;
    Project(MODULE, PARAMS_HOLDER, s, a, b);
    forall fs | AllWellFormed(fs) && AllBytes(fs) == s
      ensures Decode(MODULE, s, b).authority == LastText(MODULE, fs, b)
    {
      SplitDecides(MODULE, fs, b);
      DecodeFields(MODULE, fs, b);
    }
  }

  /** The other way round, exactly when every field 1 holds a `Params`. */
  lemma {:induction false} ModuleAsGenesis(fs: seq<Field>, a: bytes, b: bytes)
    requires AllWellFormed(fs) && Decode(MODULE, AllBytes(fs), b).ok
    ensures Decode(PARAMS_HOLDER, AllBytes(fs), a).ok <==>
      forall i :: 0 <= i < |fs| && TreeNumber(fs[i]) == 1 ==> fs[i].LenField? && Plain(fs[i].payload)
  {
    hide Decode;
    SplitDecides(MODULE, fs, b);
    SplitDecides(PARAMS_HOLDER, fs, a);
  }

  /** Whatever any decoder accepts, the decoders of the empty messages accept. */
  lemma {:induction false} AnyAsEmpty(schema: Schema, s: bytes, a: bytes)
    requires Decode(schema, s, a).ok
    ensures Plain(s)
  {
    Project(EMPTY, schema, s, a, a);
    PlainIsEmptySchema(s, a);
  }

  /**
   * The other way round, `MsgUpdateParams` accepts what `Module` accepts exactly when every
   * field 2 is a length-delimited one that holds a `Params`.
   */
  lemma {:induction false} ModuleAsMsg(fs: seq<Field>, a: bytes)
    requires AllWellFormed(fs) && Decode(MODULE, AllBytes(fs), a).ok
    ensures Decode(MSG_UPDATE_PARAMS, AllBytes(fs), a).ok <==>
      forall i :: 0 <= i < |fs| && TreeNumber(fs[i]) == 2 ==> fs[i].LenField? && Plain(fs[i].payload)
  {
    hide Decode;
    SplitDecides(MODULE, fs, a);
    SplitDecides(MSG_UPDATE_PARAMS, fs, a);
  }

  /** A `Module` that `MsgUpdateParams` rejects: field 2 as a varint. */
  lemma ModuleNotMsg(a: bytes)
    ensures Decode(MODULE, [0x10, 0x01], a) == Outcome(true, a)
    ensures Decode(MSG_UPDATE_PARAMS, [0x10, 0x01], a) == Outcome(false, a)
  {
    hide Decode, Groups;
    var f := VarintField([0x10], [0x01]);
    OneByteTag(0x10);
    AllBytesOne(f);
    assert [f][1..] == [] && AllWellFormed([]);
    assert WellFormed(f) && AllWellFormed([f]) && TreeNumber(f) == 2;
    assert FieldBytes(f) == [0x10, 0x01] && FieldBytes(f) + [] == FieldBytes(f);
    assert AllConform(MODULE, [f]) && [f][..0] == [];
    DecodeFields(MODULE, [f], a);
    HeadOfTree(MSG_UPDATE_PARAMS, f, []);
    assert ReadHead(MSG_UPDATE_PARAMS, [0x10, 0x01]).Bad?;
    Reject(MSG_UPDATE_PARAMS, [0x10, 0x01], a);
  }

  // ---------------------------------------------------------------- spellings

  /**
   * The authority field may be written with any tag that agrees with the writer's on its low 35
   * bits, and with tag and length of any length up to ten bytes; its payload may be any bytes.
   */
  lemma AuthoritySpelling(schema: Schema, tag: bytes, length: bytes, payload: bytes, a: bytes)
    requires 1 in schema && schema[1] == Text
    requires IsVarint(tag) && Value(tag) % 0x8_0000_0000 == AUTHORITY_TAG
    requires IsVarint(length) && Value(length) == |payload|
    ensures Decode(schema, tag + (length + payload), a) == Outcome(true, payload)
  {
    hide Decode, IsVarint, Value;
    var f := LenField(tag, length, payload);
    TagAliases(Value(tag), AUTHORITY_TAG);
    AllBytesOne(f);
    assert [f][..0] == [] && [f][1..] == [] && AllWellFormed([]);
    assert WellFormed(f) && AllWellFormed([f]) && AllConform(schema, [f]);
    DecodeFields(schema, [f], a);
  }

  /** A tag of two bytes where one would do. */
  lemma OverlongTag(a: bytes)
    ensures Decode(MSG_UPDATE_PARAMS, [0x8a, 0x00, 0x01, 0x41], a) == Outcome(true, [0x41])
  {
    hide Decode;
    assert Groups([0x00]) == 0 && Groups([0x8a, 0x00]) == 0x0a && Groups([0x01]) == 1;
    AuthoritySpelling(MSG_UPDATE_PARAMS, [0x8a, 0x00], [0x01], [0x41], a);
    assert [0x8a, 0x00] + ([0x01] + [0x41]) == [0x8a, 0x00, 0x01, 0x41];
  }

  lemma TenByteTag(tag: bytes)
    requires tag == [0x8a, 0x80, 0x80, 0x80, 0x80, 0x80, 0x80, 0x80, 0x80, 0x02]
    ensures IsVarint(tag) && Value(tag) == AUTHORITY_TAG
  {
    hide Groups;
    assert tag[9..] == [0x02];
    OneByteValue(0x02);
    Unroll(tag, 8);
    Unroll(tag, 7);
    Unroll(tag, 6);
    Unroll(tag, 5);
    Unroll(tag, 4);
    Unroll(tag, 3);
    Unroll(tag, 2);
    Unroll(tag, 1);
    Unroll(tag, 0);
  }

  lemma Unroll(tag: bytes, i: nat)
    requires i < |tag|
    ensures Groups(tag[i..]) == tag[i] % 128 + 128 * Groups(tag[i + 1..])
    ensures tag[0..] == tag
  {
    assert tag[i..][1..] == tag[i + 1..];
  }

  /** A tag of ten bytes whose bit 64 is set, and dropped. */
  lemma HighBitsDropped(a: bytes)
    ensures Decode(MSG_UPDATE_PARAMS,
                   [0x8a, 0x80, 0x80, 0x80, 0x80, 0x80, 0x80, 0x80, 0x80, 0x02, 0x01, 0x41], a) ==
            Outcome(true, [0x41])
  {
    hide Decode, Groups;
    var tag := [0x8a, 0x80, 0x80, 0x80, 0x80, 0x80, 0x80, 0x80, 0x80, 0x02];
    TenByteTag(tag);
    OneByteValue(0x01);
    AuthoritySpelling(MSG_UPDATE_PARAMS, tag, [0x01], [0x41], a);
    assert tag + ([0x01] + [0x41]) == [0x8a, 0x80, 0x80, 0x80, 0x80, 0x80, 0x80, 0x80, 0x80, 0x02, 0x01, 0x41];
  }

  /** A string that is not UTF-8. */
  lemma NotUtf8(a: bytes)
    ensures Decode(MSG_UPDATE_PARAMS, [0x0a, 0x01, 0xff], a) == Outcome(true, [0xff])
  {
    hide Decode;
    assert Groups([0x0a]) == 0x0a && Groups([0x01]) == 1;
    AuthoritySpelling(MSG_UPDATE_PARAMS, [0x0a], [0x01], [0xff], a);
    assert [0x0a] + ([0x01] + [0xff]) == [0x0a, 0x01, 0xff];
  }
}
