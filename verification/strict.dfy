/**
 * The rule for groups that the scanner does not enforce, and exactly what it lets through.
 *
 * Section "Groups" of the Protocol Buffers Encoding guide pairs an end-group tag with the
 * start-group tag of the same number, and field numbers are positive everywhere. The scanner
 * counts groups only. This module defines the rule on trees, a recogniser and a decoder that do
 * enforce it, and proves where they differ from the code.
 */
module StrictGroups {
  import opened Words
  import opened Varints
  import opened Wire
  import opened Grammar
  import opened Schemas

  // ---------------------------------------------------------------- the rule

  /** Every group in the field ends with its own number and holds only positive numbers. */
  predicate Orderly(f: Field)
    decreases f
  {
    f.Group? ==> FieldNumber(Value(f.end)) == TreeNumber(f) && AllOrderly(f.fields)
  }

  predicate AllOrderly(fs: seq<Field>)
    decreases fs
  {
    fs == [] || (TreeNumber(fs[0]) > 0 && Orderly(fs[0]) && AllOrderly(fs[1..]))
  }

  /** A recogniser that enforces the rule: it carries the number of the open group. */
  function StrictReach(s: bytes): (r: Length)
    ensures r.Length? ==> r.n >= 1
    decreases |s|, 0
  {
    match Varint(s)
    case NoWord => NoLength
    case Word(tag, size) =>
      var t := WireType(tag);
      if t == START_GROUP then Plus(size, StrictGroupLength(s[size..], FieldNumber(tag)))
      else if t == END_GROUP then NoLength
      else Plus(size, ValueReach(t, s[size..]))
  }

  function StrictGroupLength(s: bytes, number: int): (r: Length)
    ensures r.Length? ==> 1 <= r.n <= |s|
    decreases |s|, 1
  {
    match Varint(s)
    case NoWord => NoLength
    case Word(tag, size) =>
      if WireType(tag) == END_GROUP then
        if FieldNumber(tag) == number then Length(size) else NoLength
      else if FieldNumber(tag) <= 0 then NoLength
      else
        match StrictReach(s)
        case NoLength => NoLength
        case Length(n) => if n > |s| then NoLength else Plus(n, StrictGroupLength(s[n..], number))
  }

  /** The length of the orderly field `s` starts with, if there is one. */
  function StrictLength(s: bytes): (r: Length)
    ensures r.Length? ==> 1 <= r.n <= |s|
  {
    match StrictReach(s)
    case NoLength => NoLength
    case Length(n) => if n > |s| then NoLength else Length(n)
  }

  // ---------------------------------------------------------------- recogniser and rule

  /** On a well-formed field the strict recogniser agrees with the scanner's exactly when the field is orderly. */
  lemma {:induction false} StrictField(f: Field, t: bytes)
    requires WellFormed(f)
    ensures StrictReach(FieldBytes(f) + t) == if Orderly(f) then Length(|FieldBytes(f)|) else NoLength
    decreases f
  {
    hide Varint, ValueReach, StrictGroupLength, IsVarint, WireType, AllBytes, AllWellFormed, AllOrderly;
    var s := FieldBytes(f) + t;
    var v := FieldBytes(f)[|f.tag|..];
    TagOfTree(f, t);
    assert FieldBytes(f) == f.tag + v;
    assert s == f.tag + (v + t) && s[|f.tag|..] == v + t;
    if f.Group? {
      assert v + t == AllBytes(f.fields) + f.end + t;
      StrictGroup(f.fields, f.end, t, TreeNumber(f));
    } else {
      ValueOf(f, t);
    }
  }

  lemma {:induction false} StrictGroup(fs: seq<Field>, end: bytes, t: bytes, number: int)
    requires AllWellFormed(fs) && IsTag(end, END_GROUP)
    ensures StrictGroupLength(AllBytes(fs) + end + t, number) ==
      if AllOrderly(fs) && FieldNumber(Value(end)) == number then Length(|AllBytes(fs)| + |end|)
      else NoLength
    decreases fs
  {
    hide FieldBytes, WellFormed, StrictReach, Varint;
    var s := AllBytes(fs) + end + t;
    if fs == [] {
      assert s == end + t;
      VarintThen(end, t);
    } else {
      var f, n := fs[0], |FieldBytes(fs[0])|;
      var rest := AllBytes(fs[1..]) + end + t;
      assert s == FieldBytes(f) + rest && s[n..] == rest;
      TagOfTree(f, rest);
      NotEndGroup(f);
      StrictField(f, rest);
      StrictGroup(fs[1..], end, t, number);
    }
  }

  lemma NotEndGroup(f: Field)
    requires WellFormed(f)
    ensures WireType(Value(f.tag)) != END_GROUP
  {
  }

  /** The strict recogniser recognises nothing new. */
  lemma {:induction false} StrictIsNarrower(s: bytes)
    ensures StrictReach(s).Length? ==> Reach(s) == StrictReach(s)
    decreases |s|, 0
  {
    hide Varint, ValueReach, StrictGroupLength, GroupLength;
    if Varint(s).Word? && WireType(Varint(s).value) == START_GROUP {
      StrictGroupIsNarrower(s[Varint(s).size..], FieldNumber(Varint(s).value));
    }
  }

  lemma {:induction false} StrictGroupIsNarrower(s: bytes, number: int)
    ensures StrictGroupLength(s, number).Length? ==> GroupLength(s) == StrictGroupLength(s, number)
    decreases |s|, 1
  {
    hide Varint, StrictReach, Reach;
    StrictIsNarrower(s);
    if StrictLength(s).Length? {
      StrictGroupIsNarrower(s[StrictLength(s).n..], number);
    }
  }

  /** Some orderly field has exactly these bytes. */
  ghost predicate IsOrderlyField(s: bytes) {
    exists f :: WellFormed(f) && Orderly(f) && FieldBytes(f) == s
  }

  /** The strict recogniser accepts exactly the fields that obey the rule. */
  lemma StrictIsGrammar(s: bytes, n: nat)
    requires n <= |s|
    ensures StrictLength(s) == Length(n) <==> IsOrderlyField(s[..n])
  {
    hide StrictReach, Reach, WellFormed, FieldBytes;
    if StrictLength(s) == Length(n) {
      StrictIsNarrower(s);
      var f := FieldSound(s);
      assert s == FieldBytes(f) + s[n..];
      StrictField(f, s[n..]);
      assert Orderly(f);
    }
    if IsOrderlyField(s[..n]) {
      var f :| WellFormed(f) && Orderly(f) && FieldBytes(f) == s[..n];
      assert s == FieldBytes(f) + s[n..];
      StrictField(f, s[n..]);
    }
  }

  // ---------------------------------------------------------------- decoders and rule

  /** The nested payloads a decoder that enforces the rule accepts. */
  predicate StrictPlain(s: bytes)
    decreases |s|
  {
    s == [] ||
    (StrictLength(s).Length? && Number(s) > 0 && StrictPlain(s[StrictLength(s).n..]))
  }

  /** A decoder that enforces the rule, in nested payloads too. */
  function StrictHead(schema: Schema, s: bytes): (h: Head)
    ensures !h.Bad? ==> h == ReadHead(schema, s)
  {
    var h := ReadHead(schema, s);
    if h.Bad? || StrictLength(s).NoLength? then Bad
    else if Number(s) in schema && schema[Number(s)] == Nested && !StrictPlain(Payload(s)) then Bad
    else h
  }

  function StrictDecode(schema: Schema, s: bytes, a: bytes): Outcome
    decreases |s|
  {
    if s == [] then Outcome(true, a)
    else
      match StrictHead(schema, s)
      case Bad => Outcome(false, a)
      case Passed(n) => StrictDecode(schema, s[n..], a)
      case Assigned(n, text) => StrictDecode(schema, s[n..], text)
  }

  /** The field, and what a nested payload holds, obeys the rule. */
  predicate Obeys(schema: Schema, f: Field) {
    Orderly(f) &&
    (f.LenField? && TreeNumber(f) in schema && schema[TreeNumber(f)] == Nested ==> StrictPlain(f.payload))
  }

  predicate AllObey(schema: Schema, fs: seq<Field>) {
    forall i :: 0 <= i < |fs| ==> Obeys(schema, fs[i])
  }

  lemma StrictHeadOfTree(schema: Schema, f: Field, t: bytes)
    requires WellFormed(f)
    ensures StrictHead(schema, FieldBytes(f) + t) ==
      if Obeys(schema, f) then ReadHead(schema, FieldBytes(f) + t) else Bad
  {
    hide Varint, StrictReach, Orderly, WellFormed, FieldBytes, Payload, StrictPlain, FieldLength, Plain;
    TagOfTree(f, t);
    StrictField(f, t);
    HeadOfTree(schema, f, t);
    if f.LenField? {
      PayloadOfTree(f, t);
    }
  }

  /** What the strict decoder accepts, the code accepts, with the same result. */
  lemma {:induction false} StrictDecodeIsNarrower(schema: Schema, s: bytes, a: bytes)
    requires StrictDecode(schema, s, a).ok
    ensures Decode(schema, s, a) == StrictDecode(schema, s, a)
    decreases |s|
  {
    hide StrictHead, ReadHead;
    if s != [] {
      var h := StrictHead(schema, s);
      StrictDecodeIsNarrower(schema, s[h.n..], if h.Passed? then a else h.text);
    }
  }

  /**
   * On a string of well-formed fields, a decoder that enforces the rule succeeds exactly when the
   * code does and every field obeys the rule; then both leave the same authority.
   */
  lemma StrictDecodeExactly(schema: Schema, fs: seq<Field>, a: bytes)
    requires AllWellFormed(fs)
    ensures StrictDecode(schema, AllBytes(fs), a).ok <==>
      Decode(schema, AllBytes(fs), a).ok && AllObey(schema, fs)
    ensures StrictDecode(schema, AllBytes(fs), a).ok ==>
      StrictDecode(schema, AllBytes(fs), a) == Decode(schema, AllBytes(fs), a)
  {
    hide StrictDecode, Decode;
    StrictDecodeFields(schema, fs, a);
    if StrictDecode(schema, AllBytes(fs), a).ok {
      StrictDecodeIsNarrower(schema, AllBytes(fs), a);
    }
  }

  lemma {:induction false} StrictDecodeFields(schema: Schema, fs: seq<Field>, a: bytes)
    requires AllWellFormed(fs)
    ensures StrictDecode(schema, AllBytes(fs), a).ok <==>
      Decode(schema, AllBytes(fs), a).ok && AllObey(schema, fs)
    decreases |fs|
  {
    hide StrictHead, ReadHead, Obeys, WellFormed, FieldBytes;
    if fs != [] {
      var f, rest := fs[0], AllBytes(fs[1..]);
      var s := AllBytes(fs);
      assert s == FieldBytes(f) + rest;
      FieldNotEmpty(f);
      StrictHeadOfTree(schema, f, rest);
      var h := ReadHead(schema, s);
      if !h.Bad? {
        TagOfTree(f, rest);
        assert s[h.n..] == rest;
        StrictDecodeFields(schema, fs[1..], if h.Passed? then a else h.text);
        assert AllObey(schema, fs) <==> Obeys(schema, f) && AllObey(schema, fs[1..]) by {
          assert fs == [f] + fs[1..];
        }
      }
    }
  }

  /** The same for a nested payload: strict acceptance is acceptance of orderly fields. */
  lemma {:induction false} StrictPlainExactly(fs: seq<Field>)
    requires AllWellFormed(fs)
    ensures StrictPlain(AllBytes(fs)) <==>
      Plain(AllBytes(fs)) && forall i :: 0 <= i < |fs| ==> Orderly(fs[i])
    decreases |fs|
  {
    hide WellFormed, FieldBytes, Orderly, StrictReach, Reach, Varint;
    if fs != [] {
      var f, rest := fs[0], AllBytes(fs[1..]);
      FieldNotEmpty(f);
      StrictField(f, rest);
      TagOfTree(f, rest);
      assert (FieldBytes(f) + rest)[|FieldBytes(f)|..] == rest;
      StrictPlainExactly(fs[1..]);
      assert fs == [f] + fs[1..];
    }
  }

  // ---------------------------------------------------------------- what the code ignores

  /** The same field, or two groups of the same number: their contents and end tags may differ. */
  predicate Alike(f: Field, g: Field) {
    f == g || (f.Group? && g.Group? && TreeNumber(f) == TreeNumber(g))
  }

  /** Nothing between a start-group tag and its end, the end tag included, affects decoding. */
  lemma {:induction false} GroupContentsIgnored(schema: Schema, fs: seq<Field>, gs: seq<Field>, t: bytes, a: bytes)
    requires AllWellFormed(fs) && AllWellFormed(gs) && |fs| == |gs|
    requires forall i :: 0 <= i < |fs| ==> Alike(fs[i], gs[i])
    ensures Decode(schema, AllBytes(fs) + t, a) == Decode(schema, AllBytes(gs) + t, a)
    decreases |fs|
  {
    hide ReadHead, WellFormed, FieldBytes, Plain;
    if fs != [] {
      var f, g := fs[0], gs[0];
      var u, v := AllBytes(fs[1..]) + t, AllBytes(gs[1..]) + t;
      FirstField(fs, t);
      FirstField(gs, t);
      FieldNotEmpty(f);
      FieldNotEmpty(g);
      HeadOfTree(schema, f, u);
      HeadOfTree(schema, g, v);
      assert (FieldBytes(f) + u)[|FieldBytes(f)|..] == u;
      assert (FieldBytes(g) + v)[|FieldBytes(g)|..] == v;
      assert Alike(f, g);
      GroupContentsIgnored(schema, fs[1..], gs[1..], t, if IsText(schema, f) then f.payload else a);
    }
  }

  /** In particular, one end-group tag may stand for another. */
  lemma EndTagIgnored(schema: Schema, fs: seq<Field>, i: nat, end: bytes, t: bytes, a: bytes)
    requires AllWellFormed(fs) && i < |fs| && fs[i].Group? && IsTag(end, END_GROUP)
    ensures var gs := fs[i := fs[i].(end := end)];
            AllWellFormed(gs) && Decode(schema, AllBytes(gs) + t, a) == Decode(schema, AllBytes(fs) + t, a)
  {
    hide Decode, AllBytes, IsTag;
    var g := fs[i].(end := end);
    var gs := fs[i := g];
    WellFormedAt(fs, i);
    assert WellFormed(g);
    WellFormedUpdate(fs, i, g);
    GroupContentsIgnored(schema, fs, gs, t, a);
  }

  lemma {:induction false} WellFormedAt(fs: seq<Field>, i: nat)
    requires AllWellFormed(fs) && i < |fs|
    ensures WellFormed(fs[i])
  {
    if i > 0 {
      WellFormedAt(fs[1..], i - 1);
    }
  }

  lemma {:induction false} WellFormedUpdate(fs: seq<Field>, i: nat, g: Field)
    requires AllWellFormed(fs) && i < |fs| && WellFormed(g)
    ensures AllWellFormed(fs[i := g])
  {
    hide WellFormed;
    if i == 0 {
      assert fs[i := g][1..] == fs[1..];
    } else {
      WellFormedUpdate(fs[1..], i - 1, g);
      assert fs[i := g][1..] == fs[1..][i - 1 := g];
    }
  }

  /**
   * Two inputs the code accepts and the rule forbids: field 3 closed as field 4, and field 0
   * inside a group.
   */
  lemma GroupNumbersUnmatched(schema: Schema, a: bytes)
    requires 3 !in schema
    ensures Decode(schema, [0x1b, 0x24], a) == Outcome(true, a)
    ensures !StrictDecode(schema, [0x1b, 0x24], a).ok
    ensures Decode(schema, [0x1b, 0x00, 0x01, 0x1c], a) == Outcome(true, a)
    ensures !StrictDecode(schema, [0x1b, 0x00, 0x01, 0x1c], a).ok
  {
    hide Decode, StrictDecode;
    var zero := VarintField([0x00], [0x01]);
    assert Groups([0x1b]) == 0x1b && Groups([0x24]) == 0x24 && Groups([0x1c]) == 0x1c && Groups([0x00]) == 0;
    assert AllWellFormed([]) && [zero][1..] == [];
    assert WellFormed(zero) && AllWellFormed([zero]) && AllBytes([zero]) == [0x00, 0x01];
    OneGroup(schema, [], [0x24], a);
    OneGroup(schema, [zero], [0x1c], a);
    assert [0x1b] + (AllBytes([]) + [0x24]) == [0x1b, 0x24];
    assert [0x1b] + (AllBytes([zero]) + [0x1c]) == [0x1b, 0x00, 0x01, 0x1c];
    assert TreeNumber(zero) == 0 && !AllOrderly([zero]);
  }

  /** A group of field 3 alone: the code accepts it whatever it holds, the rule does not. */
  lemma OneGroup(schema: Schema, fs: seq<Field>, end: bytes, a: bytes)
    requires 3 !in schema && AllWellFormed(fs) && IsTag(end, END_GROUP)
    ensures var s := [0x1b] + (AllBytes(fs) + end);
            && Decode(schema, s, a) == Outcome(true, a)
            && (StrictDecode(schema, s, a).ok <==> AllOrderly(fs) && FieldNumber(Value(end)) == 3)
  {
    hide Decode, StrictDecode;
    var f := Group([0x1b], fs, end);
    assert Groups([0x1b]) == 0x1b;
    assert [f][1..] == [] && [f][..0] == [] && AllWellFormed([]);
    assert WellFormed(f) && AllWellFormed([f]) && TreeNumber(f) == 3;
    assert AllBytes([f]) == FieldBytes(f);
    assert AllConform(schema, [f]);
    DecodeFields(schema, [f], a);
    StrictDecodeExactly(schema, [f], a);
    assert AllObey(schema, [f]) <==> Obeys(schema, f) by {
      assert [f][0] == f;
    }
  }
}
