/**
 * The wire format of one field (sections "Message Structure" and "Groups" of the Protocol
 * Buffers Encoding guide) and the scanner that steps over a field without knowing it.
 *
 * The specification is a recursive-descent recogniser over unbounded integers. The scanner is
 * the iterative one of the generated files, with its depth counter and its 64-bit wrap-around.
 */
module Wire {
  import opened Words
  import opened Varints

  // Wire types.
  const VARINT := 0
  const FIXED64 := 1
  const LEN := 2
  const START_GROUP := 3
  const END_GROUP := 4
  const FIXED32 := 5

  /** `wire & 0x7`. */
  function WireType(tag: u64): int {
    tag % 8
  }

  /** The low three bits of a word are its remainder modulo 8. */
  lemma WireTypeIsMask(tag: u64)
    ensures WireType(tag) == BitAnd(tag, 0x7)
  {
    hide BitAnd;
    assert Pow2(3) == 8;
    var q := AndLowBits(tag, 3);
  }

  /** `int32(wire >> 3)`: only bits 3 to 34 of the tag count. */
  function FieldNumber(tag: u64): int {
    ToInt32(tag / 8)
  }

  /**
   * The field number in full: it is the tag without its low three bits, modulo 2^32, read as a
   * signed 32-bit number. Every number below 2^31 is read back as itself, and a number counts as
   * positive exactly when bit 31 of it is clear and the bits below are not all zero.
   */
  lemma FieldNumberIsExact(v: u64)
    ensures -0x8000_0000 <= FieldNumber(v) < 0x8000_0000
    ensures (v / 8 - FieldNumber(v)) % 0x1_0000_0000 == 0
    ensures FieldNumber(v) > 0 <==> 0 < (v / 8) % 0x1_0000_0000 < 0x8000_0000
  {
  }

  lemma TagOfNumber(n: nat, wireType: nat)
    requires n < 0x8000_0000 && wireType < 8
    ensures FieldNumber(8 * n + wireType) == n && WireType(8 * n + wireType) == wireType
  {
    assert (8 * n + wireType) / 8 == n;
  }

  /** Two tags mean the same exactly when they agree on their low 35 bits. */
  lemma TagAliases(v: u64, w: u64)
    ensures FieldNumber(v) == FieldNumber(w) && WireType(v) == WireType(w) <==>
      v % 0x8_0000_0000 == w % 0x8_0000_0000
  {
    TagBits(v);
    TagBits(w);
  }

  lemma TagBits(v: u64)
    ensures v % 0x8_0000_0000 == 8 * ((v / 8) % TWO_32) + v % 8
  {
  }

  function Plus(n: nat, m: Length): Length {
    if m.Length? then Length(n + m.n) else NoLength
  }

  // ---------------------------------------------------------------- specification

  /**
   * The number of bytes the field at the start of `s` claims to take. Fixed-width and
   * length-delimited fields may claim more than `s` has.
   */
  function Reach(s: bytes): (r: Length)
    ensures r.Length? ==> r.n >= 1
    decreases |s|, 0
  {
    match Varint(s)
    case NoWord => NoLength
    case Word(tag, size) =>
      var t := WireType(tag);
      if t == START_GROUP then Plus(size, GroupLength(s[size..]))
      else if t == END_GROUP then NoLength
      else Plus(size, ValueReach(t, s[size..]))
  }

  /** The number of bytes a value of a wire type other than a group claims to take. */
  function ValueReach(wireType: int, s: bytes): Length {
    if wireType == VARINT then
      match Varint(s)
      case NoWord => NoLength
      case Word(_, size) => Length(size)
    else if wireType == FIXED64 then Length(8)
    else if wireType == LEN then
      match Varint(s)
      case NoWord => NoLength
      case Word(length, size) => Length(size + length)
    else if wireType == FIXED32 then Length(4)
    else NoLength
  }

  /** The length of the fields of a group up to and including its end-group tag. */
  function GroupLength(s: bytes): (r: Length)
    ensures r.Length? ==> 1 <= r.n <= |s|
    decreases |s|, 1
  {
    match Varint(s)
    case NoWord => NoLength
    case Word(tag, size) =>
      if WireType(tag) == END_GROUP then Length(size)
      else
        match Reach(s)
        case NoLength => NoLength
        case Length(n) => if n > |s| then NoLength else Plus(n, GroupLength(s[n..]))
  }

  /** The length of the well-formed field `s` starts with, if there is one. */
  function FieldLength(s: bytes): (r: Length)
    ensures r.Length? ==> 1 <= r.n <= |s|
  {
    match Reach(s)
    case NoLength => NoLength
    case Length(n) => if n > |s| then NoLength else Length(n)
  }

  /** A length that fits in a Go `int`. */
  function Representable(n: Length): Length {
    if n.Length? && n.n <= MAX_INT then n else NoLength
  }

  // ---------------------------------------------------------------- the scanner

  /** The number of bytes it takes to close `depth` open groups. */
  ghost function Close(s: bytes, depth: nat): (r: Length)
    ensures r.Length? ==> r.n <= |s|
    ensures depth == 0 ==> r == Length(0)
  {
    if depth == 0 then Length(0)
    else
      match GroupLength(s)
      case NoLength => NoLength
      case Length(n) => Plus(n, Close(s[n..], depth - 1))
  }

  /** What is left of the field being skipped: all of it, or the closing of the open groups. */
  ghost function Pending(s: bytes, depth: nat): Length {
    if depth == 0 then Reach(s) else Close(s, depth)
  }

  lemma CloseGroup(s: bytes, n: nat, depth: nat)
    requires depth > 0 && GroupLength(s) == Length(n)
    ensures Close(s, depth) == Plus(n, Close(s[n..], depth - 1))
  {
  }

  lemma NeverCloses(s: bytes, depth: nat)
    requires depth > 0 && GroupLength(s) == NoLength
    ensures Close(s, depth) == NoLength
  {
  }

  lemma NoGroupWithoutField(s: bytes)
    requires Reach(s) == NoLength && Varint(s).Word? && WireType(Varint(s).value) != END_GROUP
    ensures GroupLength(s) == NoLength
  {
  }

  lemma GroupAfterField(s: bytes, n: nat)
    requires FieldLength(s) == Length(n)
    ensures GroupLength(s) == Plus(n, GroupLength(s[n..]))
  {
  }

  lemma CloseField(s: bytes, n: nat, depth: nat)
    requires depth > 0 && FieldLength(s) == Length(n)
    ensures Close(s, depth) == Plus(n, Close(s[n..], depth))
  {
    hide Varint, Reach;
    var rest := s[n..];
    var g := GroupLength(rest);
    GroupAfterField(s, n);
    if g.Length? {
      var m := g.n;
      assert rest[m..] == s[n + m..];
      CloseGroup(rest, m, depth);
      CloseGroup(s, n + m, depth);
    }
  }

  /** A start-group tag: one more group to close. */
  lemma OpenGroup(s: bytes, depth: nat, tag: Word)
    requires tag == Varint(s) && tag.Word? && WireType(tag.value) == START_GROUP
    ensures Pending(s, depth) == Plus(tag.size, Close(s[tag.size..], depth + 1))
  {
    hide Varint, ValueReach, GroupLength, Close;
    var k := tag.size;
    var rest := s[k..];
    var g := GroupLength(rest);
    assert Reach(s) == Plus(k, g);
    if g.Length? {
      var m := g.n;
      CloseGroup(rest, m, depth + 1);
      assert rest[m..] == s[k + m..];
      if depth > 0 {
        CloseField(s, k + m, depth);
      }
    } else {
      NeverCloses(rest, depth + 1);
      if depth > 0 {
        NoGroupWithoutField(s);
        NeverCloses(s, depth);
      }
    }
  }

  /** An end-group tag closes the innermost group, whichever field number it carries. */
  lemma EndGroup(s: bytes, depth: nat, tag: Word)
    requires tag == Varint(s) && tag.Word? && WireType(tag.value) == END_GROUP
    ensures Pending(s, depth) ==
      if depth == 0 then NoLength else Plus(tag.size, Close(s[tag.size..], depth - 1))
  {
  }

  /** A field inside open groups must lie within `s`; the same groups then remain open. */
  lemma StepOver(s: bytes, depth: nat, tag: Word)
    requires tag == Varint(s) && tag.Word?
    requires WireType(tag.value) != START_GROUP && WireType(tag.value) != END_GROUP
    ensures var reach := Plus(tag.size, ValueReach(WireType(tag.value), s[tag.size..]));
            Pending(s, depth) ==
              if depth == 0 || reach.NoLength? then reach
              else if reach.n > |s| then NoLength
              else Plus(reach.n, Close(s[reach.n..], depth))
  {
    hide Varint;
    if depth > 0 && FieldLength(s).Length? {
      CloseField(s, FieldLength(s).n, depth);
    }
  }

  lemma NothingToSkip(s: bytes, depth: nat)
    requires Varint(s).NoWord?
    ensures Pending(s, depth) == NoLength
  {
  }

  /**
   * The cases of the scanner's switch that step over a value: the new index, unless it no
   * longer fits in an `int`. The index may lie past the end of `data`.
   */
  method SkipValue(data: bytes, start: nat, wireType: int) returns (r: Length)
    requires start <= |data| <= MAX_INT
    requires wireType != START_GROUP && wireType != END_GROUP
    ensures r == Representable(Plus(start, ValueReach(wireType, data[start..])))
  {
    var index: int := start;
    if wireType == VARINT {
      var v := ReadVarint(data, index);
      if v.NoWord? {
        return NoLength;
      }
      index := index + v.size;
    } else if wireType == FIXED64 {
      index := Wrap(index + 8);
    } else if wireType == LEN {
      var v := ReadVarint(data, index);
      if v.NoWord? {
        return NoLength;
      }
      index := index + v.size;
      var length := Wrap(v.value);
      if length < 0 {
        return NoLength;
      }
      index := Wrap(index + length);
    } else if wireType == FIXED32 {
      index := Wrap(index + 4);
    } else {
      return NoLength;
    }
    if index < 0 {
      return NoLength;
    }
    return Length(index);
  }

  /**
   * `skipTx` and its copies: succeeds exactly when the field claims a length, and that length
   * is a Go `int`; the answer is that length. The wrap-around checks lose nothing and let
   * nothing through.
   */
  method Skip(data: bytes) returns (r: Length)
    requires |data| <= MAX_INT
    ensures r == Representable(Reach(data))
    ensures r.Length? <==> Reach(data).Length? && Reach(data).n < 0x8000_0000_0000_0000
  {
    hide Varint, Reach, GroupLength, ValueReach, Close;
    var l := |data|;
    var index := 0;
    var depth := 0;
    ghost var total, s := Reach(data), data;
    while index < l
      invariant 0 <= depth <= index <= MAX_INT
      invariant depth == 0 ==> index == 0
      invariant index <= l ==> s == data[index..] && total == Plus(index, Pending(s, depth))
      invariant index > l ==> total == NoLength
      decreases l - index
    {
      var tag := ReadVarint(data, index);
      if tag.NoWord? {
        NothingToSkip(s, depth);
        return NoLength;
      }
      ghost var at := index;
      index := index + tag.size;
      assert s[tag.size..] == data[index..];
      var wireType := WireType(tag.value);
      if wireType == START_GROUP {
        OpenGroup(s, depth, tag);
        depth := Wrap(depth + 1);
        s := s[tag.size..];
      } else if wireType == END_GROUP {
        EndGroup(s, depth, tag);
        if depth == 0 {
          return NoLength;
        }
        depth := depth - 1;
        s := s[tag.size..];
      } else {
        StepOver(s, depth, tag);
        var next := SkipValue(data, index, wireType);
        if next.NoLength? {
          return NoLength;
        }
        index := next.n;
        if index <= l {
          assert s[index - at..] == data[index..];
          s := s[index - at..];
        }
      }
      if depth == 0 {
        return Length(index);
      }
    }
    NothingToSkip([], depth);
    return NoLength;
  }
}
