/**
 * `GenesisState`: an embedded `Params` in field 1. `QueryParamsResponse` has the same generated
 * code.
 */
module GenesisMessage {
  import opened Words
  import opened Varints
  import opened Wire
  import opened Schemas
  import opened Decoding
  import opened ParamsMessage
  import opened Encodings
  import opened Writing

  class GenesisState {
    const params: Params

    /** A reset message. */
    constructor ()
    {
      params := new Params();
    }

    /** `make([]byte, size)` needs the size to be an `int`. */
    method Marshal() returns (data: array<byte>)
      requires |EncodeHolder()| <= MAX_INT
      ensures fresh(data) && data[..] == EncodeHolder()
    {
      var size := Size();
      data := new byte[size];
      var n := MarshalToSizedBuffer(data, size);
      assert data[size - n..size] == data[..];
    }

    /** `data[:size]` needs a buffer of at least that size. */
    method MarshalTo(data: array<byte>) returns (n: nat)
      requires |EncodeHolder()| <= data.Length <= MAX_INT
      modifies data
      ensures n == |EncodeHolder()|
      ensures data[..] == EncodeHolder() + old(data[n..])
    {
      var size := Size();
      n := MarshalToSizedBuffer(data, size);
      assert data[size - n..size] == data[..n];
      assert data[..] == data[..n] + data[n..];
    }

    /** Fills the end of `data[:n]` and touches nothing else. */
    method MarshalToSizedBuffer(data: array<byte>, n: nat) returns (size: nat)
      requires |EncodeHolder()| <= n <= data.Length
      modifies data
      ensures size == |EncodeHolder()|
      ensures data[n - size..n] == EncodeHolder()
      ensures data[..n - size] == old(data[..n - size]) && data[n..] == old(data[n..])
    {
      var i := n;
      i := WriteParams(data, i, PARAMS_TAG, params);
      return n - i;
    }

    method Size() returns (n: i64)
      ensures n == |EncodeHolder()|
    {
      hide EncodeVarint, Sov;
      n := 0;
      var l := params.Size();
      SovIsExact(l);
      n := Wrap(n + Wrap(Wrap(1 + l) + Sov(l)));
    }

    /** Accepts what the schema accepts; the message has no state of its own to change. */
    method Unmarshal(data: bytes) returns (success: bool)
      requires |data| <= MAX_INT
      ensures success == Decode(PARAMS_HOLDER, data, []).ok
    {
      hide Varint, FieldLength, Plain, Payload, FieldNumber, WireType, Decode, PayloadAt;
      var l := |data|;
      var index := 0;
      assert data[0..] == data;
      while index < l
        invariant 0 <= index <= l
        invariant Decode(PARAMS_HOLDER, data, []) == Decode(PARAMS_HOLDER, data[index..], [])
        decreases l - index
      {
        var fieldStart := index;
        ghost var s := data[fieldStart..];
        var wire := ReadVarint(data, index);
        if wire.NoWord? {
          NoField(s);
          Reject(PARAMS_HOLDER, s, []);
          return false;
        }
        index := index + wire.size;
        var fieldNumber := FieldNumber(wire.value);
        var wireType := WireType(wire.value);
        if wireType == END_GROUP {
          NoField(s);
          Reject(PARAMS_HOLDER, s, []);
          return false;
        }
        if fieldNumber <= 0 {
          Reject(PARAMS_HOLDER, s, []);
          return false;
        }
        if fieldNumber == 1 {
          if wireType != LEN {
            Reject(PARAMS_HOLDER, s, []);
            return false;
          }
          var slice := ReadPayload(data, index);
          PayloadInPlace(data, fieldStart, slice);
          if slice.NoSlice? {
            Reject(PARAMS_HOLDER, s, []);
            return false;
          }
          var ok := params.Unmarshal(data[slice.from..slice.to]);
          if !ok {
            Reject(PARAMS_HOLDER, s, []);
            return false;
          }
          Advance(PARAMS_HOLDER, data, fieldStart, [], slice.to, []);
          index := slice.to;
        } else {
          index := fieldStart;
          var skipped := SkipField(data, index);
          if skipped.NoLength? {
            Reject(PARAMS_HOLDER, s, []);
            return false;
          }
          Advance(PARAMS_HOLDER, data, fieldStart, [], index + skipped.n, []);
          index := index + skipped.n;
        }
      }
      if index > l {
        assert false;
      }
      assert data[index..] == [];
      assert Decode(PARAMS_HOLDER, data[index..], []) == Outcome(true, []) by {
        AtEnd(PARAMS_HOLDER, []);
      }
      return true;
    }
  }
}
