/**
 The GIP packet header: a variable-length integer codec and the rule that a
 header has an even number of bytes.
 */
module Gip {
  import opened Basics

  const HDR_MIN_LENGTH: nat := 3
  const PKT_MAX_LENGTH: nat := 58

  const CMD_ACKNOWLEDGE: byte := 0x01
  const CMD_AUTHENTICATE: byte := 0x06
  const CMD_AUDIO_SAMPLES: byte := 0x60

  const OPT_ACKNOWLEDGE: byte := 0x10
  const OPT_INTERNAL: byte := 0x20
  const OPT_CHUNK_START: byte := 0x40
  const OPT_CHUNK: byte := 0x80

  datatype Header = Header(
    command: byte, options: byte, sequence: byte,
    packetLength: uint32, chunkOffset: uint32)

  /** `options & bit`, for one of the four option bits. */
  predicate HasOption(options: byte, bit: byte)
    requires bit in {OPT_ACKNOWLEDGE, OPT_INTERNAL, OPT_CHUNK_START, OPT_CHUNK}
  {
    options / bit % 2 == 1
  }

  predicate IsChunk(h: Header) {
    HasOption(h.options, OPT_CHUNK)
  }

  // ----- varints: unsigned LEB128 cut off at four bytes -------------------------------

  const VARINT_BYTES: nat := 4

  /** 128 to the power of 4: what four groups of seven bits can hold. */
  const VARINT_LIMIT: nat := 0x1000_0000

  /** The bytes encode_varint stores: low seven bits first, high bit set while more remains. */
  function VarintBytes(val: nat, room: nat := VARINT_BYTES): (bytes: seq<byte>)
    ensures |bytes| <= room
    ensures room > 0 ==> |bytes| > 0
  {
    if room == 0 then []
    else if val <= 0x7f then [val]
    else [val % 0x80 + 0x80] + VarintBytes(val / 0x80, room - 1)
  }

  /** Groups of seven bits in `val`, at least one; the count encode_varint returns. */
  function VarintLength(val: nat): (n: nat)
    ensures n > 0
  {
    if val <= 0x7f then 1 else 1 + VarintLength(val / 0x80)
  }

  lemma {:induction false} VarintLengthBounds(val: uint32)
    ensures val < 0x80 <==> VarintLength(val) == 1
    ensures 0x80 <= val < 0x4000 <==> VarintLength(val) == 2
    ensures 0x4000 <= val < 0x20_0000 <==> VarintLength(val) == 3
    ensures 0x20_0000 <= val < VARINT_LIMIT <==> VarintLength(val) == 4
    ensures VARINT_LIMIT <= val <==> VarintLength(val) == 5
  {
    var a := val / 0x80;
    var b := a / 0x80;
    var c := b / 0x80;
    var d := c / 0x80;
    assert VarintLength(val) == if val <= 0x7f then 1 else 1 + VarintLength(a);
    assert VarintLength(a) == if a <= 0x7f then 1 else 1 + VarintLength(b);
    assert VarintLength(b) == if b <= 0x7f then 1 else 1 + VarintLength(c);
    assert VarintLength(c) == if c <= 0x7f then 1 else 1 + VarintLength(d);
    assert d <= 0x7f;
  }

  /** What decode_varint finds in `data`: the value, and the loop's exit count plus one. */
  function VarintAt(data: seq<byte>, room: nat := VARINT_BYTES): (r: (nat, nat))
    ensures 1 <= r.1 <= room + 1
    ensures r.1 <= |data| + 1
  {
    if room == 0 || data == [] then (0, 1)
    else if data[0] <= 0x7f then (data[0], 1)
    else
      var rest := VarintAt(data[1..], room - 1);
      (data[0] - 0x80 + 0x80 * rest.0, rest.1 + 1)
  }

  function Power128(i: nat): nat {
    if i == 0 then 1 else 0x80 * Power128(i - 1)
  }

  lemma {:induction false} VarintAtBound(data: seq<byte>, room: nat)
    ensures VarintAt(data, room).0 < Power128(room)
  {
    if room > 0 && data != [] {
      VarintAtBound(data[1..], room - 1);
    }
    PowerPositive(room);
  }

  lemma PowerPositive(i: nat)
    ensures Power128(i) >= 1 && (i > 0 ==> Power128(i) >= 0x80)
  {
  }

  lemma RoomForMore(val: nat, room: nat)
    requires 0x7f < val < Power128(room)
    ensures room > 1 && val / 0x80 < Power128(room - 1)
  {
    assert Power128(1) == 0x80 * Power128(0) == 0x80;
  }

  /** The padding byte that keeps headers even: the last byte is marked as continued, and a zero group follows. */
  function Padded(bytes: seq<byte>): seq<byte>
    requires bytes != [] && bytes[|bytes| - 1] <= 0x7f
  {
    bytes[..|bytes| - 1] + [bytes[|bytes| - 1] + 0x80, 0]
  }

  lemma {:induction false} VarintShape(val: nat, room: nat)
    requires room > 0 && val < Power128(room)
    ensures var bytes := VarintBytes(val, room);
            |bytes| == VarintLength(val) <= room && bytes[|bytes| - 1] <= 0x7f
  {
    if val > 0x7f {
      RoomForMore(val, room);
      VarintShape(val / 0x80, room - 1);
    }
  }

  lemma {:induction false} VarintRoundTrip(val: nat, room: nat, tail: seq<byte>)
    requires room > 0 && val < Power128(room)
    ensures VarintAt(VarintBytes(val, room) + tail, room) == (val, VarintLength(val))
  {
    var bytes := VarintBytes(val, room) + tail;
    if val > 0x7f {
      RoomForMore(val, room);
      VarintRoundTrip(val / 0x80, room - 1, tail);
      assert bytes[1..] == VarintBytes(val / 0x80, room - 1) + tail;
    }
  }

  /**
   Padding does not change the value. When the value already fills all `room`
   bytes, the decoder stops before it reads the zero byte and accounts for it
   by its exit count alone.
   */
  lemma {:induction false} PaddedRoundTrip(val: nat, room: nat, tail: seq<byte>)
    requires room > 0 && val < Power128(room)
    ensures var bytes := VarintBytes(val, room);
            && bytes[|bytes| - 1] <= 0x7f
            && VarintAt(Padded(bytes) + tail, room) == (val, VarintLength(val) + 1)
  {
    VarintShape(val, room);
    if val > 0x7f {
      RoomForMore(val, room);
      PaddedRoundTrip(val / 0x80, room - 1, tail);
      VarintShape(val / 0x80, room - 1);
      PaddedStep(val, room, tail, VarintBytes(val / 0x80, room - 1));
    } else {
      assert VarintBytes(val, room) == [val];
      hide VarintBytes, VarintAt;
      assert Padded([val]) == [val + 0x80, 0];
      PaddedGroup(val, room, tail);
    }
  }

  lemma PaddedStep(val: nat, room: nat, tail: seq<byte>, rest: seq<byte>)
    requires room > 0 && rest != [] && rest[|rest| - 1] <= 0x7f
    requires VarintAt(Padded(rest) + tail, room - 1) == (val / 0x80, VarintLength(val / 0x80) + 1)
    ensures VarintAt(Padded([val % 0x80 + 0x80] + rest) + tail, room) == (val, VarintLength(val / 0x80) + 2)
  {
    hide VarintAt, VarintLength;
    var padded := Padded([val % 0x80 + 0x80] + rest) + tail;
    assert padded[1..] == Padded(rest) + tail;
    VarintAtHead(padded, room);
  }

  lemma PaddedGroup(val: nat, room: nat, tail: seq<byte>)
    requires room > 0 && val <= 0x7f
    ensures VarintAt([val + 0x80, 0] + tail, room) == (val, 2)
  {
    var padded := [val + 0x80, 0] + tail;
    assert padded[1..] == [0] + tail;
    VarintAtHead(padded, room);
    if room > 1 {
      VarintAtHead(padded[1..], room - 1);
    }
  }

  lemma VarintBytesFit(val: uint32)
    ensures |VarintBytes(val)| <= VarintLength(val)
    ensures val < VARINT_LIMIT ==> var b := VarintBytes(val); |b| == VarintLength(val) && b[|b| - 1] <= 0x7f
  {
    VarintLengthBounds(val);
    LimitIsPower();
    if val < VARINT_LIMIT {
      VarintShape(val, VARINT_BYTES);
    }
  }

  // ----- headers --------------------------------------------------------------------

  /** Header length before the rule that it is even: a zero chunk offset counts for nothing. */
  function ActualLength(h: Header): nat {
    HDR_MIN_LENGTH + VarintLength(h.packetLength) +
    if IsChunk(h) && h.chunkOffset != 0 then VarintLength(h.chunkOffset) else 0
  }

  predicate NeedsPadding(h: Header) {
    ActualLength(h) % 2 == 1
  }

  function EncodedLength(h: Header): nat {
    HDR_MIN_LENGTH + VarintLength(h.packetLength) +
    (if NeedsPadding(h) then 1 else 0) +
    if IsChunk(h) then VarintLength(h.chunkOffset) else 0
  }

  /** The encoder rounds the length up to even, except that it emits a byte for a zero chunk offset it did not count. */
  lemma EvenExactly(h: Header)
    ensures EncodedLength(h) % 2 == 0 <==> !(IsChunk(h) && h.chunkOffset == 0)
    ensures !(IsChunk(h) && h.chunkOffset == 0) ==> EncodedLength(h) == ActualLength(h) + ActualLength(h) % 2
  {
  }

  /** The fields that go on the wire fit in four groups of seven bits. */
  predicate Encodable(h: Header) {
    h.packetLength < VARINT_LIMIT && (IsChunk(h) ==> h.chunkOffset < VARINT_LIMIT)
  }

  lemma LimitIsPower()
    ensures Power128(VARINT_BYTES) == VARINT_LIMIT
  {
    assert Power128(1) == 0x80;
    assert Power128(2) == 0x4000;
    assert Power128(3) == 0x20_0000;
  }

  function LengthBytes(h: Header): seq<byte>
    requires Encodable(h)
  {
    LimitIsPower();
    VarintShape(h.packetLength, VARINT_BYTES);
    var bytes := VarintBytes(h.packetLength);
    if NeedsPadding(h) then Padded(bytes) else bytes
  }

  function OffsetBytes(h: Header): seq<byte> {
    if IsChunk(h) then VarintBytes(h.chunkOffset) else []
  }

  function HeaderBytes(h: Header): (bytes: seq<byte>)
    requires Encodable(h)
    ensures |bytes| == EncodedLength(h)
  {
    VarintBytesFit(h.packetLength);
    VarintBytesFit(h.chunkOffset);
    [h.command, h.options, h.sequence] + LengthBytes(h) + OffsetBytes(h)
  }

  /** A decoded header and the number of bytes the decoder reports for it. */
  datatype Decoded = TooShort | Decoded(header: Header, length: nat)

  function DecodeHeader(data: seq<byte>): (d: Decoded)
    ensures d.TooShort? <==> |data| < 4
    ensures d.Decoded? ==> Encodable(d.header) && OnWire(d.header) == d.header
  {
    if |data| < HDR_MIN_LENGTH + 1 then TooShort
    else
      var len := VarintAt(data[3..]);
      var n := 3 + len.1;
      FieldBound(data[3..]);
      if HasOption(data[1], OPT_CHUNK) then
        var rest := if n <= |data| then data[n..] else [];
        var off := VarintAt(rest);
        FieldBound(rest);
        Decoded(Header(data[0], data[1], data[2], len.0, off.0), n + off.1)
      else
        Decoded(Header(data[0], data[1], data[2], len.0, 0), n)
  }

  lemma FieldBound(data: seq<byte>)
    ensures VarintAt(data).0 < VARINT_LIMIT
  {
    VarintAtBound(data, VARINT_BYTES);
    LimitIsPower();
  }

  /** What survives the wire: the chunk offset is sent only in chunk packets. */
  function OnWire(h: Header): Header {
    if IsChunk(h) then h else h.(chunkOffset := 0)
  }

  lemma LengthRoundTrip(h: Header, tail: seq<byte>)
    requires Encodable(h)
    ensures VarintAt(LengthBytes(h) + tail) == (h.packetLength, |LengthBytes(h)|)
  {
    LimitIsPower();
    VarintShape(h.packetLength, VARINT_BYTES);
    VarintRoundTrip(h.packetLength, VARINT_BYTES, tail);
    PaddedRoundTrip(h.packetLength, VARINT_BYTES, tail);
  }

  lemma OffsetRoundTrip(h: Header, tail: seq<byte>)
    requires Encodable(h) && IsChunk(h)
    ensures VarintAt(VarintBytes(h.chunkOffset) + tail) == (h.chunkOffset, |VarintBytes(h.chunkOffset)|)
  {
    LimitIsPower();
    VarintShape(h.chunkOffset, VARINT_BYTES);
    VarintRoundTrip(h.chunkOffset, VARINT_BYTES, tail);
  }

  lemma HeaderRoundTrip(h: Header, tail: seq<byte>)
    requires Encodable(h)
    ensures DecodeHeader(HeaderBytes(h) + tail) == Decoded(OnWire(h), |HeaderBytes(h)|)
  {
    hide VarintBytes, VarintAt, VarintLength, LengthBytes;
    var data, off := HeaderBytes(h) + tail, OffsetBytes(h);
    var n := 3 + |LengthBytes(h)|;
    assert data[3..] == LengthBytes(h) + (off + tail);
    LengthRoundTrip(h, off + tail);
    if IsChunk(h) {
      assert data[n..] == off + tail;
      OffsetRoundTrip(h, tail);
    }
  }

  /** Headers survive the wire exactly when their fields fit: no byte string decodes to any other. */
  lemma SurvivesExactly(h: Header)
    ensures OnWire(h) == h ==>
              (Encodable(h) <==> exists data, n :: DecodeHeader(data) == Decoded(h, n))
  {
    if Encodable(h) {
      HeaderRoundTrip(h, []);
    }
  }

  /** Two headers with the same encoding are the same on the wire. */
  lemma HeaderBytesInjective(h: Header, g: Header)
    requires Encodable(h) && Encodable(g) && HeaderBytes(h) == HeaderBytes(g)
    ensures OnWire(h) == OnWire(g)
  {
    HeaderRoundTrip(h, []);
    HeaderRoundTrip(g, []);
  }

  // ----- in numbers ------------------------------------------------------------------

  lemma OptionBits(options: byte)
    ensures HasOption(options, OPT_ACKNOWLEDGE) == (options / 16 % 2 == 1)
    ensures HasOption(options, OPT_INTERNAL) == (options / 32 % 2 == 1)
    ensures HasOption(options, OPT_CHUNK_START) == (options / 64 % 2 == 1)
    ensures HasOption(options, OPT_CHUNK) == (options / 128 == 1)
  {
  }

  /** Groups of seven bits, the low ones first, and the high bit on all but the last; a fifth group is cut off. */
  lemma VarintInNumbers(a: nat, b: nat, c: nat, d: nat, e: nat)
    requires a < 128 && b < 128 && c < 128 && d < 128
    ensures VarintBytes(a) == [a]
    ensures b > 0 ==> VarintBytes(a + 128 * b) == [a + 128, b]
    ensures c > 0 ==> VarintBytes(a + 128 * b + 16384 * c) == [a + 128, b + 128, c]
    ensures d > 0 ==> VarintBytes(a + 128 * b + 16384 * c + 2097152 * d) == [a + 128, b + 128, c + 128, d]
    ensures e > 0 ==>
              VarintBytes(a + 128 * b + 16384 * c + 2097152 * d + 268435456 * e) == [a + 128, b + 128, c + 128, d + 128]
  {
    hide VarintBytes;
    MoreGroups(a, b, 4);
    MoreGroups(a, b + 128 * c, 4);
    MoreGroups(a, b + 128 * c + 16384 * d, 4);
    MoreGroups(a, b + 128 * c + 16384 * d + 2097152 * e, 4);
    MoreGroups(b, c, 3);
    MoreGroups(b, c + 128 * d, 3);
    MoreGroups(b, c + 128 * d + 16384 * e, 3);
    MoreGroups(c, d, 2);
    MoreGroups(c, d + 128 * e, 2);
    MoreGroups(d, e, 1);
    MoreGroups(d, 0, 1);
    MoreGroups(c, 0, 2);
    MoreGroups(b, 0, 3);
    MoreGroups(a, 0, 4);
    NoRoom(e);
  }

  lemma NoRoom(val: nat)
    ensures VarintBytes(val, 0) == []
  {
  }

  /** One group off the front. */
  lemma MoreGroups(a: nat, rest: nat, room: nat)
    requires a < 128 && room > 0
    ensures VarintBytes(a + 128 * rest, room) == if rest == 0 then [a] else [a + 128] + VarintBytes(rest, room - 1)
  {
  }

  /** The headers of short packets, of audio packets and of chunks, byte for byte. */
  lemma HeaderInNumbers(h: Header)
    ensures h.options < 128 && h.packetLength < 128 ==>
              Encodable(h) && HeaderBytes(h) == [h.command, h.options, h.sequence, h.packetLength]
    ensures h.options < 128 && 128 <= h.packetLength < 16384 ==>
              Encodable(h) && HeaderBytes(h)
              == [h.command, h.options, h.sequence, h.packetLength % 128 + 128, h.packetLength / 128 + 128, 0]
    ensures h.options >= 128 && h.packetLength < 128 && 0 < h.chunkOffset < 128 ==>
              Encodable(h) && HeaderBytes(h)
              == [h.command, h.options, h.sequence, h.packetLength + 128, 0, h.chunkOffset]
    ensures h.options >= 128 && h.packetLength < 128 && 128 <= h.chunkOffset < 16384 ==>
              Encodable(h) && HeaderBytes(h)
              == [h.command, h.options, h.sequence, h.packetLength, h.chunkOffset % 128 + 128, h.chunkOffset / 128]
  {
    OptionBits(h.options);
    if h.packetLength < 16384 {
      VarintInNumbers(h.packetLength % 128, h.packetLength / 128, 0, 0, 0);
    }
    if h.chunkOffset < 16384 {
      VarintInNumbers(h.chunkOffset % 128, h.chunkOffset / 128, 0, 0, 0);
    }
    VarintLengthBounds(h.packetLength);
    VarintLengthBounds(h.chunkOffset);
    hide VarintBytes, VarintLength, HasOption;
  }

  // ----- the loops -----------------------------------------------------------------

  /** What remains of a 32-bit value after `i` groups of seven bits is below this. */
  function GroupsLeft(i: nat): nat
    requires i <= VARINT_BYTES
  {
    [0x1_0000_0000, 0x200_0000, 0x4_0000, 0x800, 0x10][i]
  }

  method EncodeVarint(buf: array<byte>, at: nat, val: uint32) returns (n: nat)
    requires at + |VarintBytes(val)| <= buf.Length
    modifies buf
    ensures n == VarintLength(val)
    ensures buf[..] == Overwrite(old(buf[..]), at, VarintBytes(val))
  {
    hide Overwrite;
    var i, v: nat := 0, val;
    ghost var before, all := buf[..], VarintBytes(val);
    OverwriteNothing(before, at);
    while i < VARINT_BYTES
      invariant i <= VARINT_BYTES && v < GroupsLeft(i)
      invariant i + |VarintBytes(v, VARINT_BYTES - i)| == |all|
      invariant all[i..] == VarintBytes(v, VARINT_BYTES - i)
      invariant i + VarintLength(v) == VarintLength(val)
      invariant buf[..] == Overwrite(before, at, all[..i])
    {
      assert all[i] == VarintBytes(v, VARINT_BYTES - i)[0];
      assert all[i + 1..] == all[i..][1..];
      assert all[..i + 1] == all[..i] + [all[i]];
      OverwriteMore(before, at, all[..i], [all[i]]);
      OverwriteOne(buf[..], at + i, all[i]);
      buf[at + i] := if v > 0x7f then v % 0x80 + 0x80 else v;
      v := v / 0x80;
      if v == 0 {
        break;
      }
      i := i + 1;
    }
    n := i + 1;
    assert all[..|all|] == all;
  }

  /** `x << 7 * i` */
  function Shifted(x: nat, i: nat): nat
    decreases i
  {
    if i == 0 then x else Shifted(0x80 * x, i - 1)
  }

  lemma {:induction false} ShiftedSum(x: nat, y: nat, i: nat)
    ensures Shifted(x + y, i) == Shifted(x, i) + Shifted(y, i)
    decreases i
  {
    if i > 0 {
      ShiftedSum(0x80 * x, 0x80 * y, i - 1);
    }
  }

  /** After `i` continued groups worth `val`, the rest of the varint gives the remainder of its value and length. */
  ghost predicate Accumulated(all: seq<byte>, i: nat, val: nat) {
    i <= |all| && i <= VARINT_BYTES &&
    var rest := VarintAt(all[i..], VARINT_BYTES - i);
    VarintAt(all) == (val + Shifted(rest.0, i), i + rest.1)
  }

  lemma AccumulateGroup(all: seq<byte>, i: nat, val: nat)
    requires Accumulated(all, i, val) && i < |all| && i < VARINT_BYTES
    ensures var sum := val + Shifted(all[i] % 0x80, i);
            if all[i] <= 0x7f then VarintAt(all) == (sum, i + 1) else Accumulated(all, i + 1, sum)
  {
    hide VarintAt, Shifted;
    var rest := VarintAt(all[i + 1..], VARINT_BYTES - i - 1).0;
    assert all[i..][1..] == all[i + 1..];
    VarintAtHead(all[i..], VARINT_BYTES - i);
    ShiftedSum(all[i] % 0x80, 0x80 * rest, i);
    ShiftedOn(rest, i);
  }

  lemma VarintAtHead(data: seq<byte>, room: nat)
    requires data != [] && room > 0
    ensures var rest := VarintAt(data[1..], room - 1);
            VarintAt(data, room) == if data[0] <= 0x7f then (data[0], 1) else (data[0] % 0x80 + 0x80 * rest.0, rest.1 + 1)
  {
  }

  lemma ShiftedOn(x: nat, i: nat)
    ensures Shifted(x, i + 1) == Shifted(0x80 * x, i)
  {
  }

  method DecodeVarint(data: seq<byte>, at: nat, len: int) returns (n: nat, val: nat)
    requires len > 0 ==> at + len <= |data|
    ensures (val, n) == VarintAt(if len > 0 then data[at..at + len] else [])
  {
    ghost var all := if len > 0 then data[at..at + len] else [];
    var i := 0;
    val := 0;
    assert all[0..] == all;
    while i < VARINT_BYTES && i < len
      invariant Accumulated(all, i, val)
    {
      var b := data[at + i];
      assert b == all[i];
      AccumulateGroup(all, i, val);
      val := val + Shifted(b % 0x80, i);
      if b <= 0x7f {
        return i + 1, val;
      }
      i := i + 1;
    }
    NothingLeft(all, i, val);
    n := i + 1;
  }

  lemma NothingLeft(all: seq<byte>, i: nat, val: nat)
    requires Accumulated(all, i, val) && (i == |all| || i == VARINT_BYTES)
    ensures VarintAt(all) == (val, i + 1)
  {
    ShiftedSum(0, 0, i);
  }

  method ActualHeaderLength(h: Header) returns (len: nat)
    ensures len == ActualLength(h)
  {
    var pktLen: nat, chunkOffset: nat := h.packetLength, h.chunkOffset;
    len := HDR_MIN_LENGTH + 1;
    pktLen := pktLen / 0x80;
    while pktLen != 0
      invariant len + (if pktLen == 0 then 0 else VarintLength(pktLen)) == HDR_MIN_LENGTH + VarintLength(h.packetLength)
    {
      len := len + 1;
      pktLen := pktLen / 0x80;
    }
    if HasOption(h.options, OPT_CHUNK) {
      while chunkOffset != 0
        invariant len + (if chunkOffset == 0 then 0 else VarintLength(chunkOffset)) == ActualLength(h)
      {
        len := len + 1;
        chunkOffset := chunkOffset / 0x80;
      }
    }
  }

  /** `b | 0x80` */
  function Marked(b: byte): byte {
    if b <= 0x7f then b + 0x80 else b
  }

  function LengthCount(h: Header): nat {
    VarintLength(h.packetLength) + if NeedsPadding(h) then 1 else 0
  }

  /**
   A buffer with the packet length written at `at`, and the padding byte where
   the header would have an odd length. A length of 2^28 or more is counted as
   five bytes, of which the last is left as it was but for the mark.
   */
  function WithLength(h: Header, buf: seq<byte>, at: nat): (r: seq<byte>)
    requires at + LengthCount(h) <= |buf|
    ensures |r| == |buf|
  {
    VarintBytesFit(h.packetLength);
    var end, written := at + VarintLength(h.packetLength), Overwrite(buf, at, VarintBytes(h.packetLength));
    if NeedsPadding(h) then written[end - 1 := Marked(written[end - 1])][end := 0] else written
  }

  function WithFront(h: Header, buf: seq<byte>, at: nat): (r: seq<byte>)
    requires at + 3 + LengthCount(h) <= |buf|
    ensures |r| == |buf|
  {
    WithLength(h, Overwrite(buf, at, [h.command, h.options, h.sequence]), at + 3)
  }

  /** A buffer with a header encoded into it, whatever the fields. */
  function WithHeader(h: Header, buf: seq<byte>, at: nat): (r: seq<byte>)
    requires at + EncodedLength(h) <= |buf|
    ensures |r| == |buf|
  {
    VarintBytesFit(h.chunkOffset);
    Overwrite(WithFront(h, buf, at), at + 3 + LengthCount(h), OffsetBytes(h))
  }

  lemma MarkLast(buf: seq<byte>, at: nat, bytes: seq<byte>)
    requires bytes != [] && bytes[|bytes| - 1] <= 0x7f && at + |bytes| < |buf|
    ensures var written, end := Overwrite(buf, at, bytes), at + |bytes|;
            written[end - 1 := Marked(written[end - 1])][end := 0] == Overwrite(buf, at, Padded(bytes))
  {
  }

  lemma LengthFits(h: Header, buf: seq<byte>, at: nat)
    requires Encodable(h) && at + LengthCount(h) <= |buf|
    ensures |LengthBytes(h)| == LengthCount(h) && WithLength(h, buf, at) == Overwrite(buf, at, LengthBytes(h))
  {
    VarintBytesFit(h.packetLength);
    if NeedsPadding(h) {
      MarkLast(buf, at, VarintBytes(h.packetLength));
    }
    hide Overwrite, VarintBytes, VarintLength, NeedsPadding;
  }

  /** Where the fields fit, encoding writes the header's bytes and nothing else. */
  lemma HeaderFits(h: Header, buf: seq<byte>, at: nat)
    requires Encodable(h) && at + EncodedLength(h) <= |buf|
    ensures WithHeader(h, buf, at) == Overwrite(buf, at, HeaderBytes(h))
  {
    VarintBytesFit(h.chunkOffset);
    hide Overwrite, LengthBytes, VarintBytes, VarintLength, WithLength, NeedsPadding;
    var start := [h.command, h.options, h.sequence];
    LengthFits(h, Overwrite(buf, at, start), at + 3);
    OverwriteMore(buf, at, start, LengthBytes(h));
    OverwriteMore(buf, at, start + LengthBytes(h), OffsetBytes(h));
  }

  /** The packet length and, where the header would have an odd length, the padding byte. */
  method EncodeLength(h: Header, buf: array<byte>, at: nat) returns (n: nat)
    requires at + LengthCount(h) <= buf.Length
    modifies buf
    ensures n == LengthCount(h) && buf[..] == WithLength(h, old(buf[..]), at)
  {
    VarintBytesFit(h.packetLength);
    hide Overwrite, VarintBytes, VarintLength, ActualLength;
    n := EncodeVarint(buf, at, h.packetLength);
    ghost var written := buf[..];
    var actual := ActualHeaderLength(h);
    if actual % 2 == 1 {
      assert buf[at + n - 1] == written[at + n - 1];
      buf[at + n - 1] := Marked(buf[at + n - 1]);
      assert buf[..] == written[at + n - 1 := Marked(written[at + n - 1])];
      buf[at + n] := 0;
      n := n + 1;
    }
  }

  method EncodeOffset(h: Header, buf: array<byte>, at: nat) returns (n: nat)
    requires at <= buf.Length && (IsChunk(h) ==> at + VarintLength(h.chunkOffset) <= buf.Length)
    modifies buf
    ensures n == if IsChunk(h) then VarintLength(h.chunkOffset) else 0
    ensures at + |OffsetBytes(h)| <= buf.Length && buf[..] == Overwrite(old(buf[..]), at, OffsetBytes(h))
  {
    VarintBytesFit(h.chunkOffset);
    hide Overwrite, VarintBytes, VarintLength;
    OverwriteNothing(buf[..], at);
    n := 0;
    if HasOption(h.options, OPT_CHUNK) {
      n := EncodeVarint(buf, at, h.chunkOffset);
    }
  }

  method EncodeHeader(h: Header, buf: array<byte>, at: nat) returns (n: nat)
    requires at + EncodedLength(h) <= buf.Length
    modifies buf
    ensures n == EncodedLength(h) && buf[..] == WithHeader(h, old(buf[..]), at)
    ensures Encodable(h) ==> buf[..] == Overwrite(old(buf[..]), at, HeaderBytes(h))
  {
    hide Overwrite, WithLength, OffsetBytes, VarintLength, NeedsPadding, HeaderBytes;
    ghost var before := buf[..];
    StoreStart(h, buf, at);
    n := EncodeLength(h, buf, at + 3);
    n := 3 + n;
    var v := EncodeOffset(h, buf, at + n);
    n := n + v;
    if Encodable(h) {
      HeaderFits(h, before, at);
    }
  }

  method StoreStart(h: Header, buf: array<byte>, at: nat)
    requires at + 3 <= buf.Length
    modifies buf
    ensures buf[..] == Overwrite(old(buf[..]), at, [h.command, h.options, h.sequence])
  {
    buf[at], buf[at + 1], buf[at + 2] := h.command, h.options, h.sequence;
  }

  method DecodeHeaderBytes(data: seq<byte>) returns (d: Decoded)
    ensures d == DecodeHeader(data)
  {
    if |data| < HDR_MIN_LENGTH + 1 {
      return TooShort;
    }
    var n, len := DecodeVarint(data, 3, |data| - 3);
    assert data[3..3 + (|data| - 3)] == data[3..];
    FieldBound(data[3..]);
    var h := Header(data[0], data[1], data[2], len, 0);
    n := 3 + n;
    if HasOption(h.options, OPT_CHUNK) {
      var m, off := DecodeVarint(data, n, |data| - n);
      assert n < |data| ==> data[n..n + (|data| - n)] == data[n..];
      FieldBound(if n <= |data| then data[n..] else []);
      h := h.(chunkOffset := off);
      n := n + m;
    }
    return Decoded(h, n);
  }
}
