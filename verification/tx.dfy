/** `MsgUpdateParams`: a string in field 1 and an embedded `Params` in field 2. */
module TxMessage {
  import opened Words
  import opened Varints
  import opened Wire
  import opened Schemas
  import opened Decoding
  import opened ParamsMessage
  import opened Encodings
  import opened Writing

  class MsgUpdateParams {
    var authority: GoString
    const params: Params

    /** A reset message. */
    constructor ()
      ensures authority == []
    {
      authority := [];
      params := new Params();
    }

    /** `make([]byte, size)` needs the size to be an `int`. */
    method Marshal() returns (data: array<byte>)
      requires |EncodeMsg(authority)| <= MAX_INT
      ensures fresh(data) && data[..] == EncodeMsg(authority)
    {
      var size := Size();
      data := new byte[size];
      var n := MarshalToSizedBuffer(data, size);
      assert data[size - n..size] == data[..];
    }

    /** `data[:size]` needs a buffer of at least that size. */
    method MarshalTo(data: array<byte>) returns (n: nat)
      requires |EncodeMsg(authority)| <= data.Length <= MAX_INT
      modifies data
      ensures n == |EncodeMsg(authority)|
      ensures data[..] == EncodeMsg(authority) + old(data[n..])
    {
      var size := Size();
      n := MarshalToSizedBuffer(data, size);
      assert data[size - n..size] == data[..n];
      assert data[..] == data[..n] + data[n..];
    }

    /** Fills the end of `data[:n]` and touches nothing else. */
    method MarshalToSizedBuffer(data: array<byte>, n: nat) returns (size: nat)
      requires |EncodeMsg(authority)| <= n <= data.Length
      modifies data
      ensures size == |EncodeMsg(authority)|
      ensures data[n - size..n] == EncodeMsg(authority)
      ensures data[..n - size] == old(data[..n - size]) && data[n..] == old(data[n..])
    {
      hide EncodeText, EncodeLen;
      var i := n;
      i := WriteParams(data, i, MSG_PARAMS_TAG, params);
      ghost var middle, written := i, data[..];
      i := WriteText(data, i, authority);
      assert data[middle..n] == written[middle..n] by { Suffix(data[..], written, middle, n); }
      assert data[n..] == written[n..] by { Suffix(data[..], written, middle, n); }
      assert data[i..n] == data[i..middle] + data[middle..n];
      assert data[..i] == written[..middle][..i];
      return n - i;
    }

    /**
     * `Size`, in `int` arithmetic: exact whenever the exact size is an `int`; otherwise it
     * wraps to a negative number.
     */
    method Size() returns (n: i64)
      ensures |EncodeMsg(authority)| <= MAX_INT ==> n == |EncodeMsg(authority)|
      ensures |EncodeMsg(authority)| > MAX_INT ==> n < 0
    {
      hide EncodeVarint, Sov;
      n := 0;
      var l := |authority|;
      if l > 0 {
        SovIsExact(l);
        n := Wrap(n + Wrap(Wrap(1 + l) + Sov(l)));
      }
      l := params.Size();
      SovIsExact(l);
      n := Wrap(n + Wrap(Wrap(1 + l) + Sov(l)));
    }

    /** Decodes into the receiver without resetting it; a failure may leave it changed. */
    method Unmarshal(data: bytes) returns (success: bool)
      requires |data| <= MAX_INT
      modifies this`authority
      ensures Outcome(success, authority) == Decode(MSG_UPDATE_PARAMS, data, old(authority))
    {
      hide Varint, FieldLength, Plain, Payload, FieldNumber, WireType, Decode, PayloadAt;
      var l := |data|;
      var index := 0;
      assert data[0..] == data;
      while index < l
        invariant 0 <= index <= l
        invariant Decode(MSG_UPDATE_PARAMS, data, old(authority)) == Decode(MSG_UPDATE_PARAMS, data[index..], authority)
        decreases l - index
      {
        var fieldStart := index;
        ghost var s := data[fieldStart..];
        var wire := ReadVarint(data, index);
        if wire.NoWord? {
          NoField(s);
          Reject(MSG_UPDATE_PARAMS, s, authority);
          return false;
        }
        index := index + wire.size;
        var fieldNumber := FieldNumber(wire.value);
        var wireType := WireType(wire.value);
        if wireType == END_GROUP {
          NoField(s);
          Reject(MSG_UPDATE_PARAMS, s, authority);
          return false;
        }
        if fieldNumber <= 0 {
          Reject(MSG_UPDATE_PARAMS, s, authority);
          return false;
        }
        if fieldNumber == 1 {
          if wireType != LEN {
            Reject(MSG_UPDATE_PARAMS, s, authority);
            return false;
          }
          var slice := ReadPayload(data, index);
          PayloadInPlace(data, fieldStart, slice);
          if slice.NoSlice? {
            Reject(MSG_UPDATE_PARAMS, s, authority);
            return false;
          }
          Advance(MSG_UPDATE_PARAMS, data, fieldStart, authority, slice.to, data[slice.from..slice.to]);
          authority := data[slice.from..slice.to];
          index := slice.to;
        } else if fieldNumber == 2 {
          if wireType != LEN {
            Reject(MSG_UPDATE_PARAMS, s, authority);
            return false;
          }
          var slice := ReadPayload(data, index);
          PayloadInPlace(data, fieldStart, slice);
          if slice.NoSlice? {
            Reject(MSG_UPDATE_PARAMS, s, authority);
            return false;
          }
          var ok := params.Unmarshal(data[slice.from..slice.to]);
          if !ok {
            Reject(MSG_UPDATE_PARAMS, s, authority);
            return false;
          }
          Advance(MSG_UPDATE_PARAMS, data, fieldStart, authority, slice.to, authority);
          index := slice.to;
        } else {
          index := fieldStart;
          var skipped := SkipField(data, index);
          if skipped.NoLength? {
            Reject(MSG_UPDATE_PARAMS, s, authority);
            return false;
          }
          Advance(MSG_UPDATE_PARAMS, data, fieldStart, authority, index + skipped.n, authority);
          index := index + skipped.n;
        }
      }
      if index > l {
        assert false;
      }
      assert data[index..] == [];
      assert Decode(MSG_UPDATE_PARAMS, data[index..], authority) == Outcome(true, authority) by {
        AtEnd(MSG_UPDATE_PARAMS, authority);
      }
      return true;
    }
  }
}
