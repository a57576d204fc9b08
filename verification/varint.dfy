/**
 * Base-128 varints: section "Base 128 Varints" of the Protocol Buffers Encoding guide.
 *
 * The five `encodeVarint*`/`sov*` functions and the many inlined reading loops of the
 * generated files are copies of one another; each is modelled once.
 */
module Varints {
  import opened Words

  /** No varint is longer: the reading loop gives up at shift 70. */
  const MAX_VARINT := 10

  // ---------------------------------------------------------------- specification

  /** The number written by the 7-bit groups of `s`, least significant group first. */
  function Groups(s: bytes): nat {
    if s == [] then 0 else s[0] % 128 + 128 * Groups(s[1..])
  }

  /** The byte strings that are one varint: at most ten bytes, exactly the last below 0x80. */
  predicate IsVarint(s: bytes) {
    && 1 <= |s| <= MAX_VARINT
    && s[|s| - 1] < 0x80
    && forall i :: 0 <= i < |s| - 1 ==> s[i] >= 0x80
  }

  /** How many bytes it takes to get past the first byte below 0x80, looking at `room` bytes. */
  function Terminator(s: bytes, room: nat): (r: Length)
    ensures r.Length? ==> 1 <= r.n <= |s| && r.n <= room
    decreases |s|
  {
    if room == 0 || s == [] then NoLength
    else if s[0] < 0x80 then Length(1)
    else
      match Terminator(s[1..], room - 1)
      case NoLength => NoLength
      case Length(n) => Length(n + 1)
  }

  /** A varint read, if any: its value as a 64-bit word and the number of bytes it takes. */
  datatype Word = NoWord | Word(value: u64, size: nat)

  /** The varint `s` starts with. Bits from 2^64 up are dropped. */
  function Varint(s: bytes): (r: Word)
    ensures r.Word? ==> 1 <= r.size <= |s| && r.size <= MAX_VARINT
  {
    match Terminator(s, MAX_VARINT)
    case NoLength => NoWord
    case Length(n) => Word(Groups(s[..n]) % TWO_64, n)
  }

  /** The shortest varint for `v`. */
  function EncodeVarint(v: nat): (r: bytes)
    ensures |r| >= 1
  {
    if v < 128 then [v] else [v % 128 + 128] + EncodeVarint(v / 128)
  }

  // ---------------------------------------------------------------- reading

  lemma {:induction false} TerminatorIsFirst(s: bytes, room: nat)
    ensures var r := Terminator(s, room);
            && (r.Length? ==> s[r.n - 1] < 0x80)
            && forall i :: 0 <= i < |s| && i < (if r.Length? then r.n - 1 else room) ==> s[i] >= 0x80
  {
    if room != 0 && s != [] && s[0] >= 0x80 {
      TerminatorIsFirst(s[1..], room - 1);
      assert forall i :: 0 < i < |s| ==> s[i] == s[1..][i - 1];
    }
  }

  /** `Varint` accepts exactly the strings that start with a varint, and reads that one. */
  lemma VarintIsPrefix(s: bytes, n: nat)
    requires n <= |s|
    ensures IsVarint(s[..n]) <==> Varint(s).Word? && Varint(s).size == n
    ensures IsVarint(s[..n]) ==> Varint(s) == Word(Groups(s[..n]) % TWO_64, n)
  {
    var e := Terminator(s, MAX_VARINT);
    TerminatorIsFirst(s, MAX_VARINT);
    if IsVarint(s[..n]) {
      assert s[n - 1] < 0x80;
      assert forall i :: 0 <= i < n - 1 ==> s[..n][i] == s[i];
      assert e == Length(n);
    }
  }

  /** The bytes after a varint do not matter. */
  lemma VarintThen(v: bytes, t: bytes)
    requires IsVarint(v)
    ensures Varint(v + t) == Word(Groups(v) % TWO_64, |v|)
  {
    assert (v + t)[..|v|] == v;
    VarintIsPrefix(v + t, |v|);
  }

  lemma {:induction false} GroupsAppend(s: bytes, b: byte)
    ensures Groups(s + [b]) == Groups(s) + (b % 128) * Pow2(7 * |s|)
    decreases |s|
  {
    if s == [] {
      assert s + [b] == [b];
      assert Groups([b]) == b % 128;
    } else {
      hide Pow2;
      assert (s + [b])[1..] == s[1..] + [b];
      GroupsAppend(s[1..], b);
      Pow2Plus7(7 * |s[1..]|);
      var g, p := b % 128, Pow2(7 * |s[1..]|);
      assert g * (128 * p) == 128 * (g * p);
    }
  }

  lemma Pow2Plus7(k: nat)
    ensures Pow2(k + 7) == 128 * Pow2(k)
  {
    assert Pow2(k + 7) == 2 * Pow2(k + 6);
    assert Pow2(k + 6) == 2 * Pow2(k + 5);
    assert Pow2(k + 5) == 2 * Pow2(k + 4);
    assert Pow2(k + 4) == 2 * Pow2(k + 3);
    assert Pow2(k + 3) == 2 * Pow2(k + 2);
    assert Pow2(k + 2) == 2 * Pow2(k + 1);
    assert Pow2(k + 1) == 2 * Pow2(k);
  }

  lemma {:induction false} GroupsBound(s: bytes)
    ensures Groups(s) < Pow2(7 * |s|)
  {
    if s != [] {
      GroupsBound(s[1..]);
      Pow2Plus7(7 * |s[1..]|);
    }
  }

  lemma Pow2At63()
    ensures Pow2(63) == TWO_63
    ensures Pow2(64) == TWO_64
  {
    Pow2Table(9);
  }

  lemma {:induction false} Pow2Table(k: nat)
    requires k <= 9
    ensures Pow2(7 * k) == [1, 0x80, 0x4000, 0x20_0000, 0x1000_0000, 0x8_0000_0000, 0x400_0000_0000,
                            0x2_0000_0000_0000, 0x100_0000_0000_0000, 0x8000_0000_0000_0000][k]
  {
    if k > 0 {
      Pow2Table(k - 1);
      Pow2Plus7(7 * (k - 1));
    }
  }

  lemma {:induction false} Pow2Monotone(a: nat, b: nat)
    requires a <= b
    ensures Pow2(a) <= Pow2(b)
    decreases b
  {
    if a < b {
      Pow2Monotone(a, b - 1);
    }
  }

  /** Up to the ninth byte nothing is lost: the groups read fit in 63 bits. */
  lemma GroupsFit(read: bytes)
    requires |read| < MAX_VARINT
    ensures Groups(read) < TWO_63
  {
    GroupsBound(read);
    Pow2Monotone(7 * |read|, 63);
    Pow2At63();
  }

  /** One turn of the reading loop: or-ing in the shifted group adds it, modulo 2^64. */
  lemma OrAddsGroup(read: bytes, b: byte, shift: nat)
    requires |read| < MAX_VARINT && shift == 7 * |read|
    ensures BitOr(Groups(read), ShiftLeft(BitAnd(b, 0x7f), shift)) == Groups(read + [b]) % TWO_64
  {
    hide BitOr, BitAnd, Groups, Pow2, ShiftLeft;
    var g := b % 128;
    assert BitAnd(b, 0x7f) == g by { AndMask7(b); }
    GroupsAppend(read, b);
    GroupsBound(read);
    if |read| < 9 {
      GroupsFit(read + [b]);
      OrLowGroup(Groups(read), g, shift);
    } else {
      Pow2At63();
      OrTenthGroup(Groups(read), g, shift);
    }
  }

  lemma OrLowGroup(low: nat, g: nat, k: nat)
    requires low < Pow2(k) && low + g * Pow2(k) < TWO_63
    ensures BitOr(low, ShiftLeft(g, k)) == (low + g * Pow2(k)) % TWO_64
  {
    assert g * Pow2(k) >= 0;
    DropHigh(0, g * Pow2(k));
    DropHigh(0, low + g * Pow2(k));
    OrIsAddition(low, g, k);
  }

  /** The tenth group is shifted by 63, so only its lowest bit survives. */
  lemma OrTenthGroup(low: nat, g: nat, k: nat)
    requires low < Pow2(k) == TWO_63
    ensures BitOr(low, ShiftLeft(g, k)) == (low + g * Pow2(k)) % TWO_64
  {
    var high, bit := g / 2, g % 2;
    assert g * Pow2(k) == high * TWO_64 + bit * TWO_63;
    DropHigh(high, bit * TWO_63);
    DropHigh(high, low + bit * TWO_63);
    assert ShiftLeft(g, k) == bit * Pow2(k);
    OrIsAddition(low, bit, k);
  }

  lemma DropHigh(high: nat, low: nat)
    requires low < TWO_64
    ensures (high * TWO_64 + low) % TWO_64 == low
  {
  }

  /** `wire |= uint64(b&0x7F) << shift`. */
  method OrGroup(wire: u64, b: byte, shift: nat, ghost read: bytes) returns (r: u64)
    requires |read| < MAX_VARINT && shift == 7 * |read|
    requires wire == Groups(read)
    ensures r == Groups(read + [b]) % TWO_64
  {
    OrAddsGroup(read, b, shift);
    r := BitOr(wire, ShiftLeft(BitAnd(b, 0x7f), shift));
  }

  /** The loop `for shift := uint(0); ; shift += 7`, started at index `start`. */
  method ReadVarint(data: bytes, start: nat) returns (r: Word)
    requires start <= |data|
    ensures r == Varint(data[start..])
  {
    var l := |data|;
    var index := start;
    var wire: u64 := 0;
    var shift := 0;
    ghost var s := data[start..];
    while true
      invariant start <= index <= l
      invariant shift == 7 * (index - start) <= 70
      invariant shift <= 63 ==> wire == Groups(s[..index - start])
      invariant forall i :: 0 <= i < index - start ==> s[i] >= 0x80
      decreases 70 - shift
    {
      ghost var k := index - start;
      if shift >= 64 {
        NoVarint(s);
        return NoWord;
      }
      if index >= l {
        NoVarint(s);
        return NoWord;
      }
      var b := data[index];
      index := index + 1;
      assert s[k] == b && s[..k + 1] == s[..k] + [b];
      wire := OrGroup(wire, b, shift, s[..k]);
      if b < 0x80 {
        VarintEndsAt(s, k);
        return Word(wire, index - start);
      }
      if shift < 63 {
        GroupsFit(s[..k + 1]);
      }
      shift := shift + 7;
    }
  }

  lemma VarintEndsAt(s: bytes, k: nat)
    requires k < |s| && k < MAX_VARINT
    requires s[k] < 0x80 && forall i :: 0 <= i < k ==> s[i] >= 0x80
    ensures Varint(s) == Word(Groups(s[..k + 1]) % TWO_64, k + 1)
  {
    TerminatorIsFirst(s, MAX_VARINT);
    assert Terminator(s, MAX_VARINT) == Length(k + 1);
  }

  /** There is no varint exactly when none of the first ten bytes is below 0x80. */
  lemma NoVarint(s: bytes)
    ensures Varint(s) == NoWord <==> forall i :: 0 <= i < |s| && i < 10 ==> s[i] >= 0x80
  {
    TerminatorIsFirst(s, MAX_VARINT);
  }

  // ---------------------------------------------------------------- writing

  /** `sov*`: the number of bytes to reserve for the varint of `x`. */
  function Sov(x: u64): nat {
    (Len64(BitOr(x, 1)) + 6) / 7
  }

  lemma {:induction false} EncodedLength(v: nat)
    ensures |EncodeVarint(v)| == (Len64(BitOr(v, 1)) + 6) / 7
  {
    Len64OrOne(v);
    if v >= 128 {
      EncodedLength(v / 128);
      Len64OrOne(v / 128);
      Len64Shift7(v);
    } else {
      Len64Small(v);
    }
  }

  lemma Len64Small(v: nat)
    requires v < 128
    ensures Len64(v) <= 7
    ensures v > 0 ==> Len64(v) >= 1
  {
    Len64Bound(v, 7);
  }

  lemma {:induction false} Len64Bound(v: nat, k: nat)
    requires v < Pow2(k)
    ensures Len64(v) <= k
  {
    if v != 0 {
      Len64Bound(v / 2, k - 1);
    }
  }

  /** The closed form is the number of bytes the encoding loop writes, one to ten. */
  lemma SovIsExact(x: u64)
    ensures Sov(x) == |EncodeVarint(x)|
    ensures 1 <= Sov(x) <= MAX_VARINT
  {
    EncodedLength(x);
    Len64OrOne(x);
    Pow2At63();
    Len64Bound(x, 64);
  }

  lemma {:induction false} EncodedGroups(v: nat)
    ensures Groups(EncodeVarint(v)) == v
  {
    if v >= 128 {
      EncodedGroups(v / 128);
      assert EncodeVarint(v)[1..] == EncodeVarint(v / 128);
    }
  }

  lemma {:induction false} EncodeTerminates(v: nat)
    ensures var e := EncodeVarint(v);
            e[|e| - 1] < 0x80 && forall i :: 0 <= i < |e| - 1 ==> e[i] >= 0x80
  {
    if v >= 128 {
      var e, t := EncodeVarint(v), EncodeVarint(v / 128);
      EncodeTerminates(v / 128);
      assert forall i :: 0 < i < |e| ==> e[i] == t[i - 1];
    }
  }

  lemma EncodeIsVarint(v: u64)
    ensures IsVarint(EncodeVarint(v))
    ensures Groups(EncodeVarint(v)) == v
  {
    EncodedGroups(v);
    EncodeTerminates(v);
    SovIsExact(v);
  }

  /** Reading back what was written, whatever follows it. */
  lemma VarintRoundTrip(v: u64, t: bytes)
    ensures Varint(EncodeVarint(v) + t) == Word(v, |EncodeVarint(v)|)
  {
    EncodeIsVarint(v);
    VarintThen(EncodeVarint(v), t);
  }

  lemma {:induction false} EncodingIsMinimal(v: nat, s: bytes)
    requires s != [] && v <= Groups(s)
    ensures |EncodeVarint(v)| <= |s|
  {
    if v >= 128 {
      assert s[0] % 128 < 128;
      assert Groups(s[1..]) >= v / 128;
      EncodingIsMinimal(v / 128, s[1..]);
    }
  }

  /** No varint that reads as `v` is shorter than the one the writer produces. */
  lemma ShortestVarint(s: bytes, v: u64)
    requires IsVarint(s) && Groups(s) % TWO_64 == v
    ensures Sov(v) <= |s|
  {
    SovIsExact(v);
    EncodingIsMinimal(v, s);
  }

  /** `encodeVarint*`: writes the varint of `v` so that it ends just before `offset`. */
  method EncodeVarintAt(data: array<byte>, offset: int, v: u64) returns (base: nat)
    requires Sov(v) <= offset <= data.Length
    modifies data
    ensures base == offset - Sov(v)
    ensures data[base..offset] == EncodeVarint(v)
    ensures data[..base] == old(data[..base]) && data[offset..] == old(data[offset..])
  {
    hide Sov, EncodeVarint;
    assert Sov(v) == |EncodeVarint(v)| by { SovIsExact(v); }
    var at := offset - Sov(v);
    base := at;
    var w := v;
    ghost var before := data[..];
    while w >= 128
      invariant 0 <= w < TWO_64
      invariant base <= at
      invariant at + |EncodeVarint(w)| == offset
      invariant data[base..at] + EncodeVarint(w) == EncodeVarint(v)
      invariant data[..base] == before[..base] && data[offset..] == before[offset..]
      decreases w
    {
      EncodeStep(w);
      ghost var written := data[base..at];
      var low := ContinuationByte(w);
      data[at] := low;
      assert data[base..at + 1] == written + [low];
      w := ShiftRight7(w);
      at := at + 1;
    }
    EncodeStep(w);
    data[at] := w;
    assert data[base..at + 1] == data[base..at] + [w];
  }

  lemma EncodeStep(w: nat)
    ensures EncodeVarint(w) == if w < 128 then [w] else [w % 128 + 128] + EncodeVarint(w / 128)
  {
  }

  /** `uint8(v&0x7f | 0x80)`: the low group of `w`, with the continuation bit. */
  method ContinuationByte(w: nat) returns (b: byte)
    ensures b == w % 128 + 128
  {
    AndMask7(w);
    OrBit7(w % 128);
    b := BitOr(BitAnd(w, 0x7f), 0x80);
  }
}
