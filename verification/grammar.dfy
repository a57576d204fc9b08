/**
 * What a well-formed field is, without saying how to recognise one: concrete syntax trees that
 * keep every byte, and the bytes they stand for. The recogniser of module `Wire` is proved to
 * accept exactly the bytes of such trees, and the tree is unique.
 */
module Grammar {
  import opened Words
  import opened Varints
  import opened Wire

  /** A field with its bytes. Tags and lengths are kept as written: they may be overlong. */
  datatype Field =
    | VarintField(tag: bytes, value: bytes)
    | FixedField(tag: bytes, value: bytes)
    | LenField(tag: bytes, length: bytes, payload: bytes)
    | Group(tag: bytes, fields: seq<Field>, end: bytes)

  /** The bytes of a field. */
  function FieldBytes(f: Field): bytes
    decreases f
  {
    match f
    case VarintField(tag, value) => tag + value
    case FixedField(tag, value) => tag + value
    case LenField(tag, length, payload) => tag + (length + payload)
    case Group(tag, fields, end) => tag + (AllBytes(fields) + end)
  }

  /** The bytes of fields written one after the other. */
  function AllBytes(fs: seq<Field>): bytes
    decreases fs
  {
    if fs == [] then [] else FieldBytes(fs[0]) + AllBytes(fs[1..])
  }

  /** The 64-bit value of a varint. */
  function Value(v: bytes): u64 {
    Groups(v) % TWO_64
  }

  predicate IsTag(tag: bytes, wireType: int) {
    IsVarint(tag) && WireType(Value(tag)) == wireType
  }

  /**
   * A well-formed field. An end-group tag need not carry the number of its start-group tag:
   * the code does not compare them.
   */
  predicate WellFormed(f: Field)
    decreases f
  {
    match f
    case VarintField(tag, value) => IsTag(tag, VARINT) && IsVarint(value)
    case FixedField(tag, value) =>
      (IsTag(tag, FIXED64) && |value| == 8) || (IsTag(tag, FIXED32) && |value| == 4)
    case LenField(tag, length, payload) =>
      IsTag(tag, LEN) && IsVarint(length) && |payload| == Value(length)
    case Group(tag, fields, end) =>
      IsTag(tag, START_GROUP) && AllWellFormed(fields) && IsTag(end, END_GROUP)
  }

  predicate AllWellFormed(fs: seq<Field>)
    decreases fs
  {
    fs == [] || (WellFormed(fs[0]) && AllWellFormed(fs[1..]))
  }

  // ---------------------------------------------------------------- wire types, one by one

  /**
   * What each of the eight wire types makes a field claim, whatever follows the tag, also when
   * that is shorter than the value: a varint (0), eight bytes (1), a length and as many bytes (2),
   * a group (3), nothing (4), four bytes (5), nothing (6 and 7).
   */
  lemma ReachByWireType(tag: bytes, t: bytes)
    requires IsVarint(tag)
    ensures var w := Value(tag) % 8;
            var v := Varint(t);
            Reach(tag + t) ==
              if w == 0 && v.Word? then Length(|tag| + v.size)
              else if w == 1 then Length(|tag| + 8)
              else if w == 2 && v.Word? then Length(|tag| + v.size + v.value)
              else if w == 3 then Plus(|tag|, GroupLength(t))
              else if w == 5 then Length(|tag| + 4)
              else NoLength
  {
    hide Varint, GroupLength, IsVarint;
    VarintThen(tag, t);
    assert (tag + t)[|tag|..] == t;
  }

  /** A group is closed by the first tag of wire type 4 that no field before it contains. */
  lemma GroupByWireType(tag: bytes, t: bytes)
    requires IsVarint(tag)
    ensures var s := tag + t;
            GroupLength(s) ==
              if Value(tag) % 8 == 4 then Length(|tag|)
              else
                match FieldLength(s)
                case NoLength => NoLength
                case Length(n) => Plus(n, GroupLength(s[n..]))
  {
    hide Varint, Reach, IsVarint;
    VarintThen(tag, t);
  }

  // ---------------------------------------------------------------- completeness

  /** A value of a fixed or length-delimited field is as long as its wire type says. */
  lemma ValueOf(f: Field, t: bytes)
    requires WellFormed(f) && !f.Group?
    ensures var v := FieldBytes(f)[|f.tag|..];
            ValueReach(WireType(Value(f.tag)), v + t) == Length(|v|)
  {
    var v := FieldBytes(f)[|f.tag|..];
    match f
    case VarintField(tag, value) =>
      assert v == value;
      VarintThen(value, t);
    case FixedField(tag, value) =>
      assert v == value;
    case LenField(tag, length, payload) =>
      assert v == length + payload;
      assert v + t == length + (payload + t);
      VarintThen(length, payload + t);
  }

  /** Every well-formed field is recognised, whatever follows it. */
  lemma {:induction false} FieldComplete(f: Field, t: bytes)
    requires WellFormed(f)
    ensures Reach(FieldBytes(f) + t) == Length(|FieldBytes(f)|)
    decreases f
  {
    hide Varint, ValueReach, GroupLength, IsVarint, WireType, AllBytes, AllWellFormed;
    var s := FieldBytes(f) + t;
    var v := FieldBytes(f)[|f.tag|..];
    assert FieldBytes(f) == f.tag + v;
    assert s == f.tag + (v + t);
    VarintThen(f.tag, v + t);
    assert s[|f.tag|..] == v + t;
    if f.Group? {
      assert v + t == AllBytes(f.fields) + f.end + t;
      GroupComplete(f.fields, f.end, t);
    } else {
      ValueOf(f, t);
    }
  }

  lemma {:induction false} GroupComplete(fs: seq<Field>, end: bytes, t: bytes)
    requires AllWellFormed(fs) && IsTag(end, END_GROUP)
    ensures GroupLength(AllBytes(fs) + end + t) == Length(|AllBytes(fs)| + |end|)
    decreases fs
  {
    var s := AllBytes(fs) + end + t;
    if fs == [] {
      assert s == end + t;
      VarintThen(end, t);
    } else {
      var n := |FieldBytes(fs[0])|;
      var rest := AllBytes(fs[1..]) + end + t;
      assert s == FieldBytes(fs[0]) + rest;
      FieldComplete(fs[0], rest);
      GroupComplete(fs[1..], end, t);
      assert s[n..] == rest;
      GroupAfterField(s, n);
    }
  }

  // ---------------------------------------------------------------- soundness

  lemma VarintAtStart(s: bytes)
    requires Varint(s).Word?
    ensures var v := s[..Varint(s).size]; IsVarint(v) && Value(v) == Varint(s).value
  {
    VarintIsPrefix(s, Varint(s).size);
  }

  lemma ValueSound(tag: bytes, wireType: int, s: bytes, n: nat) returns (f: Field)
    requires IsTag(tag, wireType) && wireType != START_GROUP && wireType != END_GROUP
    requires ValueReach(wireType, s) == Length(n) && n <= |s|
    ensures WellFormed(f) && FieldBytes(f) == tag + s[..n]
  {
    if wireType == VARINT {
      VarintAtStart(s);
      f := VarintField(tag, s[..n]);
    } else if wireType == LEN {
      VarintAtStart(s);
      var k := Varint(s).size;
      assert s[..k] + s[k..n] == s[..n];
      f := LenField(tag, s[..k], s[k..n]);
    } else {
      f := FixedField(tag, s[..n]);
    }
  }

  /** What is recognised is a well-formed field, byte for byte. */
  lemma FieldSound(s: bytes) returns (f: Field)
    requires FieldLength(s).Length?
    ensures WellFormed(f) && FieldBytes(f) == s[..FieldLength(s).n]
    decreases |s|, 0
  {
    hide Varint, ValueReach, GroupLength;
    var k := Varint(s).size;
    var wireType := WireType(Varint(s).value);
    var n := FieldLength(s).n;
    var tag, rest := s[..k], s[k..];
    assert IsTag(tag, wireType) by { VarintAtStart(s); }
    assert s[..n] == tag + rest[..n - k];
    if wireType == START_GROUP {
      var fs, end := GroupSound(rest);
      f := Group(tag, fs, end);
    } else {
      f := ValueSound(tag, wireType, rest, n - k);
    }
  }

  lemma GroupSound(s: bytes) returns (fs: seq<Field>, end: bytes)
    requires GroupLength(s).Length?
    ensures AllWellFormed(fs) && IsTag(end, END_GROUP)
    ensures AllBytes(fs) + end == s[..GroupLength(s).n]
    decreases |s|, 1
  {
    hide Varint, Reach;
    var m := GroupLength(s).n;
    if WireType(Varint(s).value) == END_GROUP {
      VarintAtStart(s);
      fs, end := [], s[..m];
    } else {
      var n := FieldLength(s).n;
      var rest := s[n..];
      var f := FieldSound(s);
      fs, end := GroupSound(rest);
      assert s[..m] == s[..n] + rest[..m - n];
      fs := [f] + fs;
    }
  }

  // ---------------------------------------------------------------- the field theorem

  /** Some well-formed field has exactly these bytes. */
  ghost predicate IsField(s: bytes) {
    exists f :: WellFormed(f) && FieldBytes(f) == s
  }

  /** The recogniser finds a field of `n` bytes exactly when the first `n` bytes are one. */
  lemma FieldLengthIsGrammar(s: bytes, n: nat)
    requires n <= |s|
    ensures FieldLength(s) == Length(n) <==> IsField(s[..n])
  {
    if FieldLength(s) == Length(n) {
      var f := FieldSound(s);
    }
    if IsField(s[..n]) {
      var f :| WellFormed(f) && FieldBytes(f) == s[..n];
      FieldComplete(f, s[n..]);
      assert s == s[..n] + s[n..];
    }
  }

  /** The scanner stops within the input exactly after a well-formed field. */
  lemma SkipIsGrammar(s: bytes, n: nat)
    requires n <= |s| <= MAX_INT
    ensures Representable(Reach(s)) == Length(n) <==> IsField(s[..n])
  {
    FieldLengthIsGrammar(s, n);
  }

  /** No strict prefix of a field even starts with a field. */
  lemma PrefixFree(s: bytes, k: nat)
    requires IsField(s) && k < |s|
    ensures FieldLength(s[..k]) == NoLength
  {
    hide FieldLength, IsField;
    var p := s[..k];
    assert s[..|s|] == s;
    FieldLengthIsGrammar(s, |s|);
    if FieldLength(p).Length? {
      var n := FieldLength(p).n;
      FieldLengthIsGrammar(p, n);
      assert p[..n] == s[..n];
      FieldLengthIsGrammar(s, n);
      assert false;
    }
  }

  /** Bytes after a field do not change where it ends. */
  lemma FieldThen(s: bytes, t: bytes)
    requires FieldLength(s).Length?
    ensures FieldLength(s + t) == FieldLength(s)
  {
    var n := FieldLength(s).n;
    FieldLengthIsGrammar(s, n);
    assert (s + t)[..n] == s[..n];
    FieldLengthIsGrammar(s + t, n);
  }

  // ---------------------------------------------------------------- uniqueness

  lemma SameVarint(v: bytes, t: bytes, w: bytes, u: bytes)
    requires IsVarint(v) && IsVarint(w) && v + t == w + u
    ensures v == w && t == u
  {
    VarintThen(v, t);
    VarintThen(w, u);
    assert v == (v + t)[..|v|] && t == (v + t)[|v|..];
    assert w == (w + u)[..|w|] && u == (w + u)[|w|..];
  }

  /** A byte string is at most one field followed by something. */
  lemma {:induction false} UniqueField(f: Field, t: bytes, g: Field, u: bytes)
    requires WellFormed(f) && WellFormed(g)
    requires FieldBytes(f) + t == FieldBytes(g) + u
    ensures f == g && t == u
    decreases f, 1
  {
    hide Reach, FieldBytes;
    var s := FieldBytes(f) + t;
    FieldComplete(f, t);
    FieldComplete(g, u);
    assert FieldBytes(f) == s[..|FieldBytes(f)|] && t == s[|FieldBytes(f)|..];
    assert FieldBytes(g) == s[..|FieldBytes(f)|] && u == s[|FieldBytes(f)|..];
    UniqueTree(f, g);
  }

  lemma {:induction false} UniqueTree(f: Field, g: Field)
    requires WellFormed(f) && WellFormed(g) && FieldBytes(f) == FieldBytes(g)
    ensures f == g
    decreases f, 0
  {
    hide IsVarint, Value, AllBytes, AllWellFormed;
    var v, w := FieldBytes(f)[|f.tag|..], FieldBytes(g)[|g.tag|..];
    assert FieldBytes(f) == f.tag + v && FieldBytes(g) == g.tag + w;
    SameVarint(f.tag, v, g.tag, w);
    match f
    case VarintField(_, value) => assert v == value && w == g.value;
    case FixedField(_, value) => assert v == value && w == g.value;
    case LenField(_, length, payload) => SameVarint(length, payload, g.length, g.payload);
    case Group(_, fields, end) => UniqueGroup(fields, end, g.fields, g.end);
  }

  lemma FirstField(fs: seq<Field>, t: bytes)
    requires fs != []
    ensures AllBytes(fs) + t == FieldBytes(fs[0]) + (AllBytes(fs[1..]) + t)
    ensures fs == [fs[0]] + fs[1..]
  {
    hide FieldBytes;
    var a, b := FieldBytes(fs[0]), AllBytes(fs[1..]);
    assert AllBytes(fs) == a + b;
    assert (a + b) + t == a + (b + t);
  }

  lemma {:induction false} UniqueGroup(fs: seq<Field>, e: bytes, gs: seq<Field>, d: bytes)
    requires AllWellFormed(fs) && AllWellFormed(gs) && IsTag(e, END_GROUP) && IsTag(d, END_GROUP)
    requires AllBytes(fs) + e == AllBytes(gs) + d
    ensures fs == gs && e == d
    decreases fs
  {
    hide IsTag, FieldBytes;
    if fs != [] {
      FirstField(fs, e);
      if gs != [] {
        FirstField(gs, d);
        UniqueField(fs[0], AllBytes(fs[1..]) + e, gs[0], AllBytes(gs[1..]) + d);
        UniqueGroup(fs[1..], e, gs[1..], d);
      } else {
        assert AllBytes(gs) + d == d;
        EndTagIsNoField(fs[0], AllBytes(fs[1..]) + e, d);
      }
    } else {
      assert AllBytes(fs) + e == e;
      if gs != [] {
        FirstField(gs, d);
        EndTagIsNoField(gs[0], AllBytes(gs[1..]) + d, e);
      } else {
        assert AllBytes(gs) + d == d;
      }
    }
  }

  lemma EndTagIsNoField(f: Field, t: bytes, end: bytes)
    requires WellFormed(f) && IsTag(end, END_GROUP)
    ensures FieldBytes(f) + t != end
  {
    FieldComplete(f, t);
    VarintThen(end, []);
    assert end + [] == end;
  }

  /** A byte string splits into well-formed fields in at most one way. */
  lemma {:induction false} UniqueSplit(fs: seq<Field>, gs: seq<Field>)
    requires AllWellFormed(fs) && AllWellFormed(gs) && AllBytes(fs) == AllBytes(gs)
    ensures fs == gs
  {
    if fs != [] && gs != [] {
      UniqueField(fs[0], AllBytes(fs[1..]), gs[0], AllBytes(gs[1..]));
      UniqueSplit(fs[1..], gs[1..]);
      assert fs == [fs[0]] + fs[1..] && gs == [gs[0]] + gs[1..];
    } else if fs != [] {
      FieldNotEmpty(fs[0]);
    } else if gs != [] {
      FieldNotEmpty(gs[0]);
    }
  }

  lemma FieldNotEmpty(f: Field)
    requires WellFormed(f)
    ensures |FieldBytes(f)| > 0
  {
    FieldComplete(f, []);
  }
}
