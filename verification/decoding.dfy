/**
 * The two things every generated `Unmarshal` does with a field once its tag is read: slice out
 * a length-delimited payload, or step over the field. The code repeats both per message and
 * field; they are modelled once, with their 64-bit overflow tests.
 */
module Decoding {
  import opened Words
  import opened Varints
  import opened Wire
  import opened Schemas

  /** The bounds of a payload, if any. */
  datatype Slice = NoSlice | Slice(from: nat, to: nat)

  /** The payload whose length is at the start of `s`, by unbounded arithmetic alone. */
  function PayloadAt(s: bytes): Slice {
    match Varint(s)
    case NoWord => NoSlice
    case Word(length, size) =>
      if size + length <= |s| then Slice(size, size + length) else NoSlice
  }

  /**
   * Reads a length at `start` and slices the payload after it: the tests for a negative length,
   * a negative end and an end past the input together amount to "the end is within the input".
   */
  method ReadPayload(data: bytes, start: nat) returns (r: Slice)
    requires start <= |data| <= MAX_INT
    ensures r ==
      match PayloadAt(data[start..])
      case NoSlice => NoSlice
      case Slice(from, to) => Slice(start + from, start + to)
  {
    var l := |data|;
    var word := ReadVarint(data, start);
    if word.NoWord? {
      return NoSlice;
    }
    var index := start + word.size;
    var length := Wrap(word.value);
    if length < 0 {
      return NoSlice;
    }
    var end := Wrap(index + length);
    if end < 0 {
      return NoSlice;
    }
    if end > l {
      return NoSlice;
    }
    return Slice(index, end);
  }

  /** The default case: steps over the field at `start` if it ends within the input. */
  method SkipField(data: bytes, start: nat) returns (r: Length)
    requires start <= |data| <= MAX_INT
    ensures r == FieldLength(data[start..])
  {
    var l := |data|;
    var skipped := Skip(data[start..]);
    if skipped.NoLength? {
      return NoLength;
    }
    if skipped.n < 0 || Wrap(start + skipped.n) < 0 {
      return NoLength;
    }
    if Wrap(start + skipped.n) > l {
      return NoLength;
    }
    return skipped;
  }

  /** The typed path and the skip path agree on where a length-delimited field ends. */
  lemma PayloadEndsField(s: bytes)
    requires Varint(s).Word? && WireType(Varint(s).value) == LEN
    ensures var k := Varint(s).size;
            match PayloadAt(s[k..])
            case NoSlice => FieldLength(s) == NoLength
            case Slice(from, to) =>
              FieldLength(s) == Length(k + to) && Payload(s) == s[k + from..k + to]
  {
  }

  /** The same, for the field at index `at` and the slice that `ReadPayload` returned for it. */
  lemma PayloadInPlace(data: bytes, at: nat, slice: Slice)
    requires at <= |data|
    requires var wire := Varint(data[at..]);
             && wire.Word? && WireType(wire.value) == LEN
             && slice ==
                  match PayloadAt(data[at + wire.size..])
                  case NoSlice => NoSlice
                  case Slice(from, to) => Slice(at + wire.size + from, at + wire.size + to)
    ensures match slice
            case NoSlice => FieldLength(data[at..]) == NoLength
            case Slice(from, to) =>
              at <= from <= to <= |data|
              && FieldLength(data[at..]) == Length(to - at) && Payload(data[at..]) == data[from..to]
  {
    hide FieldLength, Varint, WireType;
    var s := data[at..];
    var k := Varint(s).size;
    assert s[k..] == data[at + k..];
    PayloadEndsField(s);
    if slice.Slice? {
      assert s[slice.from - at..slice.to - at] == data[slice.from..slice.to];
    }
  }

  /** A tag that ends a group, or no tag at all, starts no field. */
  lemma NoField(s: bytes)
    requires Varint(s).Word? ==> WireType(Varint(s).value) == END_GROUP
    ensures FieldLength(s) == NoLength
  {
  }

  /** A field the decoder rejects ends decoding where it is. */
  lemma Reject(schema: Schema, s: bytes, a: bytes)
    requires s != [] && ReadHead(schema, s).Bad?
    ensures Decode(schema, s, a) == Outcome(false, a)
  {
  }

  /** A field the decoder passes over or assigns: decoding goes on after it. */
  lemma Advance(schema: Schema, data: bytes, at: nat, a: bytes, next: nat, b: bytes)
    requires at < next <= |data|
    requires (ReadHead(schema, data[at..]) == Passed(next - at) && b == a) ||
             ReadHead(schema, data[at..]) == Assigned(next - at, b)
    ensures Decode(schema, data[at..], a) == Decode(schema, data[next..], b)
  {
    hide ReadHead, Decode;
    PassOver(schema, data[at..], a, b);
    assert data[at..][next - at..] == data[next..];
  }

  lemma PassOver(schema: Schema, s: bytes, a: bytes, b: bytes)
    requires var h := ReadHead(schema, s); (h.Passed? && b == a) || (h.Assigned? && b == h.text)
    ensures Decode(schema, s, a) == Decode(schema, s[ReadHead(schema, s).n..], b)
  {
    hide ReadHead;
  }

  lemma AtEnd(schema: Schema, a: bytes)
    ensures Decode(schema, [], a) == Outcome(true, a)
  {
  }
}
