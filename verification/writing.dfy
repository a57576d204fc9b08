/**
 * The backwards writer. A buffer `data[:n]` is filled from its end: each field's payload first,
 * then the length it turned out to have, then the tag. The generated `MarshalToSizedBuffer`s
 * repeat the two kinds of field; each is modelled once.
 */
module Writing {
  import opened Words
  import opened Varints
  import opened ParamsMessage
  import opened Encodings

  /** The builtin `copy(data[i:], src)`. */
  method Copy(data: array<byte>, i: nat, src: bytes)
    requires i + |src| <= data.Length
    modifies data
    ensures data[..] == old(data[..i]) + src + old(data[i + |src|..])
  {
    for k := 0 to |src|
      invariant data[..] == old(data[..i]) + src[..k] + old(data[i + k..])
    {
      data[i + k] := src[k];
    }
    assert src[..|src|] == src;
  }

  /** `i = encodeVarint(data, i, length); i--; data[i] = tag`. */
  method WriteHeader(data: array<byte>, start: nat, tag: byte, length: u64) returns (i: nat)
    requires 1 + |EncodeVarint(length)| <= start <= data.Length
    modifies data
    ensures i == start - 1 - |EncodeVarint(length)|
    ensures data[i..start] == [tag] + EncodeVarint(length)
    ensures data[..i] == old(data[..i]) && data[start..] == old(data[start..])
  {
    hide EncodeVarint, Sov;
    SovIsExact(length);
    ghost var before := data[..];
    i := EncodeVarintAt(data, start, length);
    i := i - 1;
    data[i] := tag;
    assert data[i..start] == [tag] + data[i + 1..start];
    assert data[start..] == before[start..];
  }

  /** The string field, if not empty. */
  method WriteText(data: array<byte>, end: nat, text: bytes) returns (i: nat)
    requires |text| <= MAX_INT && |EncodeText(text)| <= end <= data.Length
    modifies data
    ensures i == end - |EncodeText(text)|
    ensures data[i..end] == EncodeText(text)
    ensures data[..i] == old(data[..i]) && data[end..] == old(data[end..])
  {
    hide EncodeVarint, EncodeLen;
    i := end;
    if |text| > 0 {
      EncodeLenParts(AUTHORITY_TAG, text);
      ghost var before := data[..];
      i := i - |text|;
      Copy(data, i, text);
      ghost var copied, start := data[..], i;
      i := WriteHeader(data, i, AUTHORITY_TAG, |text|);
      WrittenAround(before, copied, data[..], i, start, text);
    }
  }

  /** Writing `text` at `start` and then a header from `i` up to it writes both, and no more. */
  lemma WrittenAround(before: bytes, copied: bytes, after: bytes, i: nat, start: nat, text: bytes)
    requires i <= start && start + |text| <= |before| == |copied| == |after|
    requires copied == before[..start] + text + before[start + |text|..]
    requires after[..i] == copied[..i] && after[start..] == copied[start..]
    ensures after[i..start + |text|] == after[i..start] + text
    ensures after[..i] == before[..i] && after[start + |text|..] == before[start + |text|..]
  {
    assert copied[start..] == text + before[start + |text|..];
    assert copied[..start] == before[..start];
    assert after[..i] == copied[..start][..i];
    assert after[start..][|text|..] == after[start + |text|..];
    assert after[start..][..|text|] == after[start..start + |text|];
  }

  /** The embedded `Params`, always. */
  method WriteParams(data: array<byte>, end: nat, tag: byte, params: Params) returns (i: nat)
    requires |EncodeLen(tag, EncodeParams())| <= end <= data.Length
    modifies data
    ensures i == end - |EncodeLen(tag, EncodeParams())|
    ensures data[i..end] == EncodeLen(tag, EncodeParams())
    ensures data[..i] == old(data[..i]) && data[end..] == old(data[end..])
  {
    hide EncodeVarint;
    i := end;
    var size := params.MarshalToSizedBuffer(data, i);
    i := i - size;
    i := WriteHeader(data, i, tag, size);
    assert data[i..end] == data[i..end - size] + data[end - size..end];
  }

  /** Buffers that agree from `from` on agree on every slice after it. */
  lemma Suffix(a: bytes, b: bytes, from: nat, to: nat)
    requires from <= to <= |a| == |b| && a[from..] == b[from..]
    ensures a[from..to] == b[from..to] && a[to..] == b[to..]
  {
    assert a[from..to] == a[from..][..to - from];
    assert b[from..to] == b[from..][..to - from];
    assert a[to..] == a[from..][to - from..];
    assert b[to..] == b[from..][to - from..];
  }
}
