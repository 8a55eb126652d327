/** The packet framing of internal/protocol/wire: byte streams, VarInts,
    fixed-width numbers, strings and length-prefixed packets. */
module Wire {
  import opened Bits
  import opened Wrappers

  datatype Error = UnexpectedEnd | VarIntTooLong | LengthOutOfRange

  /** A bytes.Buffer that is written to. */
  class Buffer {
    var contents: seq<byte>

    constructor ()
      ensures contents == []
    {
      contents := [];
    }

    method WriteByte(b: byte)
      modifies this
      ensures contents == old(contents) + [b]
    {
      contents := contents + [b];
    }

    method Write(bytes: seq<byte>)
      modifies this
      ensures contents == old(contents) + bytes
    {
      contents := contents + bytes;
    }
  }

  /** A bufio.Reader or bytes.Reader: the bytes not yet read. */
  class Reader {
    var rest: seq<byte>

    constructor (bytes: seq<byte>)
      ensures rest == bytes
    {
      rest := bytes;
    }

    method ReadByte() returns (r: Result<byte, Error>)
      modifies this
      ensures old(rest) == [] ==> r == Err(UnexpectedEnd) && rest == []
      ensures old(rest) != [] ==> r == Ok(old(rest)[0]) && rest == old(rest)[1..]
    {
      if rest == [] {
        return Err(UnexpectedEnd);
      }
      r := Ok(rest[0]);
      rest := rest[1..];
    }

    /** io.ReadFull: a short stream is drained and reported. */
    method ReadFull(n: nat) returns (r: Result<seq<byte>, Error>)
      modifies this
      ensures n <= |old(rest)| ==> r == Ok(old(rest)[..n]) && rest == old(rest)[n..]
      ensures n > |old(rest)| ==> r == Err(UnexpectedEnd) && rest == []
    {
      if n > |rest| {
        rest := [];
        return Err(UnexpectedEnd);
      }
      r := Ok(rest[..n]);
      rest := rest[n..];
    }
  }

  // ----- VarInts

  const MAX_VARINT_BYTES := 5

  /** Seven bits a byte, least significant first, the high bit set on all but the last. */
  function EncodeVarInt(u: nat): (s: seq<byte>)
    ensures |s| > 0
  {
    if u < 0x80 then [u] else [u % 0x80 + 0x80] + EncodeVarInt(u / 0x80)
  }

  /** How many bytes the VarInt at the head of s has, if one ends within the first five. */
  function VarIntSpan(s: seq<byte>): (n: Option<nat>)
    ensures n.Some? ==> 1 <= n.value <= |s| && n.value <= MAX_VARINT_BYTES
  {
    if |s| > 0 && s[0] < 0x80 then Some(1)
    else if |s| > 1 && s[1] < 0x80 then Some(2)
    else if |s| > 2 && s[2] < 0x80 then Some(3)
    else if |s| > 3 && s[3] < 0x80 then Some(4)
    else if |s| > 4 && s[4] < 0x80 then Some(5)
    else None
  }

  function Low7(s: seq<byte>): (d: seq<nat>)
    ensures |d| == |s| && forall i | 0 <= i < |s| :: d[i] == s[i] % 0x80
  {
    seq(|s|, i requires 0 <= i < |s| => s[i] % 0x80)
  }

  /** What the bytes denote: the base-128 number, its upper bits cut off at 32. */
  function DecodeVarInt(s: seq<byte>): (r: Result<(uint32, seq<byte>), Error>)
  {
    match VarIntSpan(s)
    case Some(n) => Ok((Uint32(FromDigits(0x80, Low7(s[..n]))), s[n..]))
    case None => if |s| < MAX_VARINT_BYTES then Err(UnexpectedEnd) else Err(VarIntTooLong)
  }

  lemma {:induction false} EncodeVarIntShape(u: nat)
    ensures forall i | 0 <= i < |EncodeVarInt(u)| :: EncodeVarInt(u)[i] >= 0x80 <==> i < |EncodeVarInt(u)| - 1
    ensures FromDigits(0x80, Low7(EncodeVarInt(u))) == u
    ensures forall k: nat | k > 0 && u < Pow(0x80, k) :: |EncodeVarInt(u)| <= k
  {
    var s := EncodeVarInt(u);
    if u >= 0x80 {
      EncodeVarIntShape(u / 0x80);
      assert Low7(s)[1..] == Low7(EncodeVarInt(u / 0x80));
      forall k: nat | k > 0 && u < Pow(0x80, k)
        ensures |s| <= k
      {
        assert k > 1;
        assert u / 0x80 < Pow(0x80, k - 1);
      }
    } else {
      assert Low7(s)[1..] == [];
    }
  }

  lemma PowSmall()
    ensures Pow(2, 7) == 0x80
  {
    assert Pow(2, 3) == 8 && Pow(2, 5) == 32;
  }

  lemma Pow128()
    ensures Pow(0x80, 1) == 0x80 && Pow(0x80, 2) == 0x4000 && Pow(0x80, 3) == 0x20_0000
    ensures Pow(0x80, 4) == 0x1000_0000 && Pow(0x80, 5) == 0x8_0000_0000
  {
    assert Pow(0x80, 0) == 1;
    assert Pow(0x80, 1) == 0x80;
  }

  /** ReadVarInt inverts WriteVarInt whatever follows. */
  lemma VarIntRoundTrip(u: uint32, suffix: seq<byte>)
    ensures |EncodeVarInt(u)| <= MAX_VARINT_BYTES
    ensures DecodeVarInt(EncodeVarInt(u) + suffix) == Ok((u, suffix))
  {
    EncodeVarIntShape(u);
    Pow128();
    var s := EncodeVarInt(u);
    assert forall i | 0 <= i < |s| :: (s + suffix)[i] >= 0x80 <==> i < |s| - 1;
    assert VarIntSpan(s + suffix) == Some(|s|);
    assert (s + suffix)[..|s|] == s;
  }

  /** No two 32-bit values share an encoding, nor is one the start of another's. */
  lemma VarIntPrefixFree(u: uint32, v: uint32, s: seq<byte>, t: seq<byte>)
    requires EncodeVarInt(u) + s == EncodeVarInt(v) + t
    ensures u == v && s == t
  {
    VarIntRoundTrip(u, s);
    VarIntRoundTrip(v, t);
  }

  method WriteVarInt(w: Buffer, value: int32)
    modifies w
    ensures w.contents == old(w.contents) + EncodeVarInt(Uint32(value))
  {
    var u: nat := Uint32(value);
    while true
      invariant w.contents + EncodeVarInt(u) == old(w.contents) + EncodeVarInt(Uint32(value))
      decreases u
    {
      if u < 0x80 {
        w.WriteByte(u);
        return;
      }
      ghost var before := w.contents;
      w.WriteByte(u % 0x80 + 0x80);
      assert before + EncodeVarInt(u) == w.contents + EncodeVarInt(u / 0x80);
      u := u / 0x80;
    }
  }

  method ReadVarInt(r: Reader) returns (result: Result<int32, Error>)
    modifies r
    ensures DecodeVarInt(old(r.rest)).Ok? ==>
      && result == Ok(Int32(DecodeVarInt(old(r.rest)).value.0))
      && r.rest == DecodeVarInt(old(r.rest)).value.1
    ensures DecodeVarInt(old(r.rest)).Err? ==>
      && result == Err(DecodeVarInt(old(r.rest)).error)
      && r.rest == old(r.rest)[if |old(r.rest)| < 5 then |old(r.rest)| else 5..]
  {
    ghost var s: seq<byte> := r.rest;
    var value := 0;
    var shift := 0;
    ghost var k := 0;
    while shift < 35
      invariant 0 <= k <= 5 && k <= |s| && shift == 7 * k
      invariant r.rest == s[k..]
      invariant forall i | 0 <= i < k :: s[i] >= 0x80
      invariant value == Uint32(FromDigits(0x80, Low7(s[..k])))
      decreases 35 - shift
    {
      var b := r.ReadByte();
      if b.Err? {
        return Err(b.error);
      }
      assert s[..k + 1] == s[..k] + [s[k]];
      assert Low7(s[..k + 1]) == Low7(s[..k]) + [s[k] % 0x80];
      FromDigitsBound(0x80, Low7(s[..k]));
      FromDigitsSnoc(0x80, Low7(s[..k]), s[k] % 0x80);
      PowOfPow(2, 7, k);
      Pow128();
      PowSmall();
      assert value < Pow(2, shift);
      value := Uint32(value + b.value % 0x80 * Pow(2, shift));
      if b.value < 0x80 {
        assert VarIntSpan(s) == Some(k + 1);
        return Ok(Int32(value));
      }
      shift := shift + 7;
      k := k + 1;
    }
    return Err(VarIntTooLong);
  }

  method VarIntLen(value: int32) returns (n: nat)
    ensures n == |EncodeVarInt(Uint32(value))|
  {
    VarIntRoundTrip(Uint32(value), []);
    var u: nat := Uint32(value);
    for i := 1 to MAX_VARINT_BYTES
      invariant i - 1 + |EncodeVarInt(u)| == |EncodeVarInt(Uint32(value))|
    {
      if u < 0x80 {
        return i;
      }
      u := u / 0x80;
    }
    return MAX_VARINT_BYTES;
  }

  // ----- fixed-width numbers

  method WriteShort(w: Buffer, value: int16)
    modifies w
    ensures w.contents == old(w.contents) + BigEndian(2, Uint16(value))
  {
    w.Write(BigEndian(2, Uint16(value)));
  }

  method WriteInt(w: Buffer, value: int32)
    modifies w
    ensures w.contents == old(w.contents) + BigEndian(4, Uint32(value))
  {
    w.Write(BigEndian(4, Uint32(value)));
  }

  method WriteLong(w: Buffer, value: int64)
    modifies w
    ensures w.contents == old(w.contents) + BigEndian(8, Uint64(value))
  {
    w.Write(BigEndian(8, Uint64(value)));
  }

  // ----- strings

  function EncodeString(value: seq<byte>): seq<byte> {
    EncodeVarInt(Uint32(|value|)) + value
  }

  function DecodeString(s: seq<byte>, maxChars: int32): Result<(seq<byte>, seq<byte>), Error> {
    var (u, rest) :- DecodeVarInt(s);
    var length := Int32(u);
    if length < 0 || length > Int32(maxChars * 4) then Err(LengthOutOfRange)
    else if length > |rest| then Err(UnexpectedEnd)
    else Ok((rest[..length], rest[length..]))
  }

  method WriteString(w: Buffer, value: seq<byte>)
    modifies w
    ensures w.contents == old(w.contents) + EncodeString(value)
  {
    WriteVarInt(w, Int32(|value|));
    w.Write(value);
  }

  method ReadString(r: Reader, maxChars: int32) returns (result: Result<seq<byte>, Error>)
    modifies r
    ensures DecodeString(old(r.rest), maxChars).Ok? ==>
      && result == Ok(DecodeString(old(r.rest), maxChars).value.0)
      && r.rest == DecodeString(old(r.rest), maxChars).value.1
    ensures DecodeString(old(r.rest), maxChars).Err? ==>
      result == Err(DecodeString(old(r.rest), maxChars).error)
  {
    var length :- ReadVarInt(r);
    if length < 0 || length > Int32(maxChars * 4) {
      return Err(LengthOutOfRange);
    }
    result := r.ReadFull(length);
  }

  /** A string comes back, whatever follows, exactly when it fits the reader's limit, which is four
      times the characters on int32. */
  lemma StringRoundTrip(value: seq<byte>, maxChars: int32, suffix: seq<byte>)
    ensures DecodeString(EncodeString(value) + suffix, maxChars) == Ok((value, suffix))
            <==> |value| <= Int32(maxChars * 4)
  {
    var tail := value + suffix;
    assert EncodeString(value) + suffix == EncodeVarInt(Uint32(|value|)) + tail;
    VarIntRoundTrip(Uint32(|value|), tail);
  }

  // ----- packets

  const DEFAULT_MAX_PACKET_SIZE: int32 := 0x20_0000

  datatype Packet = Packet(id: int32, data: seq<byte>)

  function PacketLimit(maxSize: int32): (limit: int32)
    ensures limit > 0
  {
    if maxSize <= 0 then DEFAULT_MAX_PACKET_SIZE else maxSize
  }

  function PacketBody(p: Packet): (body: seq<byte>)
    ensures |body| > |p.data|
  {
    EncodeVarInt(Uint32(p.id)) + p.data
  }

  function EncodePacket(p: Packet): (s: seq<byte>)
    ensures |s| > 1
  {
    EncodeVarInt(Uint32(|PacketBody(p)|)) + PacketBody(p)
  }

  function DecodePacket(s: seq<byte>, maxSize: int32): (r: Result<(Packet, seq<byte>), Error>)
    ensures r.Ok? ==> |r.value.1| < |s| && |r.value.0.data| < PacketLimit(maxSize)
  {
    var (u, rest) :- DecodeVarInt(s);
    var length := Int32(u);
    if length < 0 || length > PacketLimit(maxSize) then Err(LengthOutOfRange)
    else if length > |rest| then Err(UnexpectedEnd)
    else
      var (id, data) :- DecodeVarInt(rest[..length]);
      Ok((Packet(Int32(id), data), rest[length..]))
  }

  method WritePacket(w: Buffer, packet: Packet)
    modifies w
    ensures w.contents == old(w.contents) + EncodePacket(packet)
  {
    var body := new Buffer();
    WriteVarInt(body, packet.id);
    body.Write(packet.data);
    var frame := new Buffer();
    WriteVarInt(frame, Int32(|body.contents|));
    frame.Write(body.contents);
    w.Write(frame.contents);
  }

  method ReadPacket(r: Reader, maxSize: int32) returns (result: Result<Packet, Error>)
    modifies r
    ensures DecodePacket(old(r.rest), maxSize).Ok? ==>
      && result == Ok(DecodePacket(old(r.rest), maxSize).value.0)
      && r.rest == DecodePacket(old(r.rest), maxSize).value.1
    ensures DecodePacket(old(r.rest), maxSize).Err? ==>
      result == Err(DecodePacket(old(r.rest), maxSize).error)
  {
    var limit := if maxSize <= 0 then DEFAULT_MAX_PACKET_SIZE else maxSize;
    var length :- ReadVarInt(r);
    if length < 0 || length > limit {
      return Err(LengthOutOfRange);
    }
    var frame :- r.ReadFull(length);
    var body := new Reader(frame);
    var id :- ReadVarInt(body);
    return Ok(Packet(id, body.rest));
  }

  /** What DecodePacket does once the length prefix is known. */
  lemma DecodeFrame(p: Packet, n: uint32, suffix: seq<byte>)
    ensures DecodeVarInt(EncodeVarInt(n) + (PacketBody(p) + suffix)) == Ok((n, PacketBody(p) + suffix))
    ensures DecodeVarInt(PacketBody(p)) == Ok((Uint32(p.id), p.data))
    ensures Int32(Uint32(p.id)) == p.id
    ensures |PacketBody(p)| <= |p.data| + MAX_VARINT_BYTES
  {
    VarIntRoundTrip(n, PacketBody(p) + suffix);
    VarIntRoundTrip(Uint32(p.id), p.data);
    Int32OfUint32(p.id);
  }

  lemma PacketFits(p: Packet, maxSize: int32, suffix: seq<byte>)
    requires |PacketBody(p)| <= PacketLimit(maxSize)
    ensures DecodePacket(EncodePacket(p) + suffix, maxSize) == Ok((p, suffix))
  {
    var body := PacketBody(p);
    var n: uint32 := |body|;
    assert Int32(n) == n && Uint32(|body|) == n;
    DecodeFrame(p, n, suffix);
    assert EncodePacket(p) + suffix == EncodeVarInt(n) + (body + suffix);
    assert (body + suffix)[..n] == body && (body + suffix)[n..] == suffix;
  }

  lemma PacketTooLong(p: Packet, maxSize: int32, suffix: seq<byte>)
    requires |PacketBody(p)| > PacketLimit(maxSize)
    ensures var r := DecodePacket(EncodePacket(p) + suffix, maxSize); r.Err? || r.value.0 != p
  {
    var body := PacketBody(p);
    var n := Uint32(|body|);
    assert EncodePacket(p) + suffix == EncodeVarInt(n) + (body + suffix);
    DecodeFrame(p, n, suffix);
    if |body| < 0x1_0000_0000 {
      assert Int32(n) < 0 || Int32(n) == |body|;
    } else {
      // The length wraps, and what is then read is shorter than what was written.
      assert |p.data| >= |body| - 5;
    }
  }

  /** One packet comes back unchanged exactly when its body is within the reader's limit. */
  lemma PacketRoundTrip(p: Packet, maxSize: int32, suffix: seq<byte>)
    ensures DecodePacket(EncodePacket(p) + suffix, maxSize) == Ok((p, suffix))
            <==> |PacketBody(p)| <= PacketLimit(maxSize)
    ensures |PacketBody(p)| > PacketLimit(maxSize) ==>
      var r := DecodePacket(EncodePacket(p) + suffix, maxSize); r.Err? || r.value.0 != p
  {
    if |PacketBody(p)| <= PacketLimit(maxSize) {
      PacketFits(p, maxSize, suffix);
    } else {
      PacketTooLong(p, maxSize, suffix);
    }
  }

  function EncodeStream(ps: seq<Packet>): seq<byte> {
    if ps == [] then [] else EncodePacket(ps[0]) + EncodeStream(ps[1..])
  }

  /** Calling ReadPacket until the stream is empty. */
  function DecodeStream(s: seq<byte>, maxSize: int32): Result<seq<Packet>, Error>
    decreases |s|
  {
    if s == [] then Ok([])
    else
      var (p, rest) :- DecodePacket(s, maxSize);
      var ps :- DecodeStream(rest, maxSize);
      Ok([p] + ps)
  }

  /** A run of packets is read back in full, in order, with nothing left,
      exactly when every one of them is within the limit. */
  lemma {:induction false} PacketStreamRoundTrip(ps: seq<Packet>, maxSize: int32)
    ensures DecodeStream(EncodeStream(ps), maxSize) == Ok(ps)
            <==> forall p | p in ps :: |PacketBody(p)| <= PacketLimit(maxSize)
  {
    if ps != [] {
      PacketRoundTrip(ps[0], maxSize, EncodeStream(ps[1..]));
      PacketStreamRoundTrip(ps[1..], maxSize);
      assert EncodeStream(ps) != [];
      assert ps == [ps[0]] + ps[1..];
    }
  }
}
