/** `Module`: the module's configuration object, a string in field 1. */
module ModuleMessage {
  import opened Words
  import opened Varints
  import opened Wire
  import opened Schemas
  import opened Decoding
  import opened Encodings
  import opened Writing

  class Module {
    var authority: GoString

    /** A reset message. */
    constructor ()
      ensures authority == []
    {
      authority := [];
    }

    /** `make([]byte, size)` needs the size to be an `int`. */
    method Marshal() returns (data: array<byte>)
      requires |EncodeModule(authority)| <= MAX_INT
      ensures fresh(data) && data[..] == EncodeModule(authority)
    {
      var size := Size();
      data := new byte[size];
      var n := MarshalToSizedBuffer(data, size);
      assert data[size - n..size] == data[..];
    }

    /** `data[:size]` needs a buffer of at least that size. */
    method MarshalTo(data: array<byte>) returns (n: nat)
      requires |EncodeModule(authority)| <= data.Length <= MAX_INT
      modifies data
      ensures n == |EncodeModule(authority)|
      ensures data[..] == EncodeModule(authority) + old(data[n..])
    {
      var size := Size();
      n := MarshalToSizedBuffer(data, size);
      assert data[size - n..size] == data[..n];
      assert data[..] == data[..n] + data[n..];
    }

    /** Fills the end of `data[:n]` and touches nothing else. */
    method MarshalToSizedBuffer(data: array<byte>, n: nat) returns (size: nat)
      requires |EncodeModule(authority)| <= n <= data.Length
      modifies data
      ensures size == |EncodeModule(authority)|
      ensures data[n - size..n] == EncodeModule(authority)
      ensures data[..n - size] == old(data[..n - size]) && data[n..] == old(data[n..])
    {
      var i := n;
      i := WriteText(data, i, authority);
      return n - i;
    }

    /**
     * `Size`, in `int` arithmetic: exact whenever the exact size is an `int`; otherwise it
     * wraps to a negative number.
     */
    method Size() returns (n: i64)
      ensures |EncodeModule(authority)| <= MAX_INT ==> n == |EncodeModule(authority)|
      ensures |EncodeModule(authority)| > MAX_INT ==> n < 0
    {
      hide EncodeVarint, Sov;
      n := 0;
      var l := |authority|;
      if l > 0 {
        SovIsExact(l);
        n := Wrap(n + Wrap(Wrap(1 + l) + Sov(l)));
      }
    }

    /** Decodes into the receiver without resetting it; a failure may leave it changed. */
    method Unmarshal(data: bytes) returns (success: bool)
      requires |data| <= MAX_INT
      modifies this`authority
      ensures Outcome(success, authority) == Decode(MODULE, data, old(authority))
    {
      hide Varint, FieldLength, Plain, Payload, FieldNumber, WireType, Decode, PayloadAt;
      var l := |data|;
      var index := 0;
      assert data[0..] == data;
      while index < l
        invariant 0 <= index <= l
        invariant Decode(MODULE, data, old(authority)) == Decode(MODULE, data[index..], authority)
        decreases l - index
      {
        var fieldStart := index;
        ghost var s := data[fieldStart..];
        var wire := ReadVarint(data, index);
        if wire.NoWord? {
          NoField(s);
          Reject(MODULE, s, authority);
          return false;
        }
        index := index + wire.size;
        var fieldNumber := FieldNumber(wire.value);
        var wireType := WireType(wire.value);
        if wireType == END_GROUP {
          NoField(s);
          Reject(MODULE, s, authority);
          return false;
        }
        if fieldNumber <= 0 {
          Reject(MODULE, s, authority);
          return false;
        }
        if fieldNumber == 1 {
          if wireType != LEN {
            Reject(MODULE, s, authority);
            return false;
          }
          var slice := ReadPayload(data, index);
          PayloadInPlace(data, fieldStart, slice);
          if slice.NoSlice? {
            Reject(MODULE, s, authority);
            return false;
          }
          Advance(MODULE, data, fieldStart, authority, slice.to, data[slice.from..slice.to]);
          authority := data[slice.from..slice.to];
          index := slice.to;
        } else {
          index := fieldStart;
          var skipped := SkipField(data, index);
          if skipped.NoLength? {
            Reject(MODULE, s, authority);
            return false;
          }
          Advance(MODULE, data, fieldStart, authority, index + skipped.n, authority);
          index := index + skipped.n;
        }
      }
      if index > l {
        assert false;
      }
      assert data[index..] == [];
      assert Decode(MODULE, data[index..], authority) == Outcome(true, authority) by {
        AtEnd(MODULE, authority);
      }
      return true;
    }
  }
}
