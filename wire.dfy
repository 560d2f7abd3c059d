/**
 The 12-byte packet header of the tunnel (rxtx.go, `header`): a little-endian
 64-bit datagram Id, the fragment index FragN, the fragment count FragNum and
 a little-endian 16-bit payload length Len.
 */
module Wire {

  type byte = x: int | 0 <= x < 0x100
  type uint16 = x: int | 0 <= x < 0x1_0000
  type uint64 = x: int | 0 <= x < 0x1_0000_0000_0000_0000

  const TwoTo64: nat := 0x1_0000_0000_0000_0000

  /** Both directions read into an 8192-byte buffer (`make([]byte, 8192)`). */
  const BufferSize: nat := 8192

  /** `headerLen = 8 + 1 + 1 + 2` */
  const HeaderLen: nat := 12

  datatype Header = Header(id: uint64, fragN: byte, fragNum: byte, len: uint16)

  function Pow256(k: nat): (p: nat)
    ensures p > 0
  {
    if k == 0 then 1 else 256 * Pow256(k - 1)
  }

  /** The k low-order bytes of x, least significant first. */
  function LittleEndian(x: nat, k: nat): (s: seq<byte>)
    ensures |s| == k
  {
    if k == 0 then [] else [x % 256] + LittleEndian(x / 256, k - 1)
  }

  /** The number whose little-endian bytes are s. */
  function FromLittleEndian(s: seq<byte>): nat
  {
    if s == [] then 0 else s[0] + 256 * FromLittleEndian(s[1..])
  }

  lemma {:induction false} FromLittleEndianBound(s: seq<byte>)
    ensures FromLittleEndian(s) < Pow256(|s|)
  {
    if s != [] {
      FromLittleEndianBound(s[1..]);
    }
  }

  /** Reading back the k bytes written for x gives x, when x fits in k bytes. */
  lemma {:induction false} FromLittleEndianInverse(x: nat, k: nat)
    requires x < Pow256(k)
    ensures FromLittleEndian(LittleEndian(x, k)) == x
  {
    if k > 0 {
      FromLittleEndianInverse(x / 256, k - 1);
      assert LittleEndian(x, k)[1..] == LittleEndian(x / 256, k - 1);
    }
  }

  /** Writing the value of a byte string back in as many bytes gives the string. */
  lemma {:induction false} LittleEndianInverse(s: seq<byte>)
    ensures LittleEndian(FromLittleEndian(s), |s|) == s
  {
    if s != [] {
      LittleEndianInverse(s[1..]);
      var v := FromLittleEndian(s);
      SplitLowByte(s[0], FromLittleEndian(s[1..]));
      assert LittleEndian(v, |s|) == [s[0]] + LittleEndian(FromLittleEndian(s[1..]), |s| - 1);
      assert s == [s[0]] + s[1..];
    }
  }

  /** The low byte and the rest of b + 256 * r. */
  lemma SplitLowByte(b: byte, r: nat)
    ensures (b + 256 * r) % 256 == b && (b + 256 * r) / 256 == r
  {
  }

  /** The 12 bytes `header.Encode` writes (rxtx.go:36-46). */
  function EncodeBytes(h: Header): (b: seq<byte>)
    ensures |b| == HeaderLen
  {
    LittleEndian(h.id, 8) + [h.fragN, h.fragNum, h.len % 256, h.len / 256]
  }

  /** The header `header.Decode` reads from the first 12 bytes of b (rxtx.go:48-56). */
  function DecodeBytes(b: seq<byte>): (h: Header)
    requires |b| >= HeaderLen
  {
    FromLittleEndianBound(b[..8]);
    assert Pow256(8) == TwoTo64;
    Header(FromLittleEndian(b[..8]), b[8], b[9], b[10] as int + 256 * b[11] as int)
  }

  /** Decode after Encode returns every field unchanged. */
  lemma DecodeEncode(h: Header)
    ensures DecodeBytes(EncodeBytes(h)) == h
  {
    var b := EncodeBytes(h);
    assert b[..8] == LittleEndian(h.id, 8);
    assert Pow256(8) == TwoTo64;
    FromLittleEndianInverse(h.id, 8);
  }

  /** Decoding a longer string decodes its first 12 bytes. */
  lemma DecodeHeaderOnly(b: seq<byte>)
    requires |b| >= HeaderLen
    ensures DecodeBytes(b) == DecodeBytes(b[..HeaderLen])
  {
    assert b[..HeaderLen][..8] == b[..8];
  }

  /** Decode reads only the first 12 bytes: whatever follows an encoded header does not change it. */
  lemma DecodeEncodedPrefix(h: Header, rest: seq<byte>)
    ensures DecodeBytes(EncodeBytes(h) + rest) == h
  {
    var b := EncodeBytes(h) + rest;
    assert b[..8] == EncodeBytes(h)[..8];
    assert b[8..12] == EncodeBytes(h)[8..12];
    DecodeEncode(h);
  }

  /** Every 12-byte string is the encoding of the header decoded from it. */
  lemma EncodeDecode(b: seq<byte>)
    requires |b| == HeaderLen
    ensures EncodeBytes(DecodeBytes(b)) == b
  {
    LittleEndianInverse(b[..8]);
    assert b == b[..8] + [b[8], b[9], b[10], b[11]];
  }

  /** Go's `x << 8` on a uint64: the top byte is shifted out. */
  lemma ShiftOutTopByte(x: uint64)
    ensures (x * 256) % TwoTo64 == (x % 0x100_0000_0000_0000) * 256
  {
    var q, r := x / 0x100_0000_0000_0000, x % 0x100_0000_0000_0000;
    assert x * 256 == q * TwoTo64 + r * 256;
  }

  /**
   One step of `Decode`'s loop on the 64-bit Id agrees with the same step on
   the unbounded value it stands for.
   */
  lemma ShiftInByte(wide: nat, id: uint64, b: byte)
    requires id == wide % TwoTo64
    ensures (id * 256) % TwoTo64 + b < TwoTo64
    ensures (id * 256) % TwoTo64 + b == (wide * 256 + b) % TwoTo64
  {
    ShiftOutTopByte(id);
    var q := wide / TwoTo64;
    var lo := (id * 256) % TwoTo64;
    var carry := id * 256 / TwoTo64;
    assert wide == q * TwoTo64 + id;
    assert id * 256 == carry * TwoTo64 + lo;
    assert wide * 256 == (q * TwoTo64) * 256 + id * 256;
    assert (q * TwoTo64) * 256 == (q * 256) * TwoTo64;
    assert wide * 256 + b == (q * 256 + carry) * TwoTo64 + (lo + b);
    ModOfMultiplePlus(q * 256 + carry, lo + b);
  }

  /** Adding a multiple of 2^64 to a value below 2^64 does not change it modulo 2^64. */
  lemma ModOfMultiplePlus(k: nat, r: nat)
    requires r < TwoTo64
    ensures (k * TwoTo64 + r) % TwoTo64 == r
  {
  }


  /** The Id loop of `header.Encode` (rxtx.go:37-40): the low byte of id is stored and id shifted right, eight times. */
  method EncodeId(h: Header, buf: array<byte>, off: nat)
    requires off + HeaderLen <= buf.Length
    modifies buf
    ensures buf[off..off + 8] == LittleEndian(h.id, 8)
    ensures forall j | 0 <= j < buf.Length && (j < off || off + 8 <= j) :: buf[j] == old(buf[j])
  {
    var id: nat := h.id;
    for i := 0 to 8
      invariant buf[off..off + i] + LittleEndian(id, 8 - i) == LittleEndian(h.id, 8)
      invariant forall j | 0 <= j < buf.Length && (j < off || off + i <= j) :: buf[j] == old(buf[j])
    {
      ghost var before := buf[off..off + i];
      ghost var after := LittleEndian(id / 256, 8 - i - 1);
      assert LittleEndian(id, 8 - i) == [id % 256] + after;
      buf[off + i] := id % 256;  // byte(id & 0xff)
      assert buf[off..off + i + 1] == before + [id % 256];
      assert before + [id % 256] + after == before + ([id % 256] + after);
      id := id / 256;            // id >>= 8
    }
  }

  /**
   `header.Encode` (rxtx.go:36-46), writing into buf from offset off: the
   Id's eight bytes, low byte first, then FragN, FragNum and Len, low byte
   first.
   */
  method Encode(h: Header, buf: array<byte>, off: nat)
    requires off + HeaderLen <= buf.Length
    modifies buf
    ensures buf[off..off + HeaderLen] == EncodeBytes(h)
    ensures buf[..off] == old(buf[..off])
    ensures buf[off + HeaderLen..] == old(buf[off + HeaderLen..])
  {
    EncodeId(h, buf, off);
    ghost var idBytes := buf[off..off + 8];
    buf[off + 8] := h.fragN;
    buf[off + 9] := h.fragNum;
    buf[off + 10] := h.len % 256;
    buf[off + 11] := h.len / 256;
    assert buf[off..off + 8] == idBytes;
    assert buf[off..off + HeaderLen] == buf[off..off + 8] + [h.fragN, h.fragNum, h.len % 256, h.len / 256];
    assert buf[..off] == old(buf[..off]) by {
      forall j | 0 <= j < off
        ensures buf[j] == old(buf[j])
      {
      }
    }
    assert buf[off + HeaderLen..] == old(buf[off + HeaderLen..]) by {
      forall j | off + HeaderLen <= j < buf.Length
        ensures buf[j] == old(buf[j])
      {
      }
    }
  }

  /**
   The unbounded value `Decode`'s loop builds from the starting Id prior
   once it has shifted in the bytes of s, last byte first.
   */
  function Widen(prior: nat, s: seq<byte>): nat
  {
    if s == [] then prior else Widen(prior, s[1..]) * 256 + s[0]
  }

  /** The starting Id ends up above the bytes shifted in. */
  lemma {:induction false} WidenValue(prior: nat, s: seq<byte>)
    ensures Widen(prior, s) == prior * Pow256(|s|) + FromLittleEndian(s)
  {
    if s != [] {
      WidenValue(prior, s[1..]);
      calc {
        Widen(prior, s);
        (prior * Pow256(|s| - 1) + FromLittleEndian(s[1..])) * 256 + s[0];
        { assert (prior * Pow256(|s| - 1)) * 256 == prior * (256 * Pow256(|s| - 1)); }
        prior * Pow256(|s|) + FromLittleEndian(s);
      }
    }
  }

  /** One turn of `Decode`'s loop, on byte i: both the 64-bit Id and its unbounded value take the byte in. */
  lemma DecodeStep(prior: nat, i: nat, wide: nat, id: uint64, b: seq<byte>)
    requires i < 8 && |b| >= 8
    requires wide == Widen(prior, b[i + 1..8]) && id == wide % TwoTo64
    ensures (id * 256) % TwoTo64 + b[i] < TwoTo64
    ensures (id * 256) % TwoTo64 + b[i] == (wide * 256 + b[i]) % TwoTo64
    ensures wide * 256 + b[i] == Widen(prior, b[i..8])
  {
    ShiftInByte(wide, id, b[i]);
    assert b[i..8][1..] == b[i + 1..8];
  }

  /** After eight byte shifts nothing of the starting Id is left. */
  lemma PriorShiftedOut(prior: uint64, wide: nat, id: uint64, b: seq<byte>)
    requires |b| >= HeaderLen
    requires wide == Widen(prior, b[..8]) && id == wide % TwoTo64
    ensures id == DecodeBytes(b).id
  {
    WidenValue(prior, b[..8]);
    assert Pow256(8) == TwoTo64;
    FromLittleEndianBound(b[..8]);
    ModOfMultiplePlus(prior, FromLittleEndian(b[..8]));
  }

  /**
   `header.Decode` (rxtx.go:48-56). The receiver's header value is reused
   across packets, so the loop starts from the previous Id; eight shifts by
   eight bits push it out completely, and the result depends on buf[..12]
   alone.
   */
  method Decode(buf: array<byte>, prior: Header) returns (h: Header)
    requires buf.Length >= HeaderLen
    ensures h == DecodeBytes(buf[..HeaderLen])
  {
    ghost var b := buf[..HeaderLen];
    var id: uint64 := prior.id;
    ghost var wide: nat := prior.id;  // id without the 64-bit wrap-around
    var i := 7;
    while i >= 0
      invariant -1 <= i <= 7
      invariant wide == Widen(prior.id, b[i + 1..8]) && id == wide % TwoTo64
    {
      assert buf[i] == b[i];
      DecodeStep(prior.id, i, wide, id, b);
      id := (id * 256) % TwoTo64;  // h.Id <<= 8
      id := id + buf[i];           // h.Id |= uint64(buf[i]): the low byte is clear
      wide := wide * 256 + buf[i];
      i := i - 1;
    }
    assert i == -1;
    assert b[i + 1..8] == b[..8];
    PriorShiftedOut(prior.id, wide, id, b);
    h := Header(id, buf[8], buf[9], buf[10] as int + buf[11] as int * 256);  // uint16(buf[10]) | uint16(buf[11])<<8
  }
}
