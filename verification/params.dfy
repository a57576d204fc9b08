/**
 * `Params`: the message without fields. `MsgUpdateParamsResponse` and `QueryParamsRequest`
 * have the same generated code.
 */
module ParamsMessage {
  import opened Words
  import opened Varints
  import opened Wire
  import opened Schemas
  import opened Decoding

  /** What `Marshal` writes. */
  function EncodeParams(): bytes {
    []
  }

  class Params {
    constructor () {
    }

    method Size() returns (n: nat)
      ensures n == |EncodeParams()|
    {
      n := 0;
    }

    /** Writes into `data[:n]`, from its end; returns the number of bytes written. */
    method MarshalToSizedBuffer(data: array<byte>, n: nat) returns (size: nat)
      requires n <= data.Length
      ensures size == |EncodeParams()| && data[n - size..n] == EncodeParams()
    {
      var i := n;
      return n - i;
    }

    method Unmarshal(data: bytes) returns (ok: bool)
      requires |data| <= MAX_INT
      ensures ok == Plain(data)
    {
      hide Varint, FieldLength;
      var l := |data|;
      var index := 0;
      ghost var s := data;
      while index < l
        invariant 0 <= index <= l
        invariant s == data[index..] && Plain(data) == Plain(s)
        decreases l - index
      {
        var fieldStart := index;
        var wire := ReadVarint(data, index);
        if wire.NoWord? {
          NoField(s);
          return false;
        }
        index := index + wire.size;
        var fieldNumber := FieldNumber(wire.value);
        var wireType := WireType(wire.value);
        if wireType == END_GROUP {
          NoField(s);
          return false;
        }
        if fieldNumber <= 0 {
          return false;
        }
        index := fieldStart;
        var skipped := SkipField(data, index);
        if skipped.NoLength? {
          return false;
        }
        index := index + skipped.n;
        assert s[skipped.n..] == data[index..];
        s := s[skipped.n..];
      }
      if index > l {
        assert false;
      }
      return true;
    }
  }
}
