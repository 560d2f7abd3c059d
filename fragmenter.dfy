/**
 The sending half of the tunnel: the body of `tunRead`'s loop for one
 datagram read from the interface (rxtx.go:71-108). The datagram is split
 into FragNum = ceil(n / MaxPay) fragments of ceil(n / FragNum) bytes, the
 last one possibly shorter; each fragment travels as a 12-byte header
 followed by its payload, padded to a multiple of the cipher's block size.
 */
module Fragmenter {
  import opened Wire
  import opened Align

  /**
   A packet handed to the transport: data are the header and payload bytes
   copied to the front of `pkt`, and pktLen bytes of `pkt` are written; the
   bytes between |data| and pktLen are whatever `pkt` held before.
   */
  datatype Packet = Packet(data: seq<byte>, pktLen: nat)

  function HeaderOf(pkt: Packet): Header
    requires |pkt.data| >= HeaderLen
  {
    DecodeBytes(pkt.data)
  }

  function PayloadOf(pkt: Packet): seq<byte>
    requires |pkt.data| >= HeaderLen
  {
    pkt.data[HeaderLen..]
  }

  /** Go's `(a + b - 1) / b` on non-negative ints. */
  function CeilDiv(a: nat, b: nat): nat
    requires b > 0
  {
    (a + b - 1) / b
  }

  lemma CeilDivBounds(a: nat, b: nat)
    requires b > 0
    ensures (CeilDiv(a, b) - 1) * b < a <= CeilDiv(a, b) * b
  {
    var c := CeilDiv(a, b);
    assert a + b - 1 == c * b + (a + b - 1) % b;
    assert (c - 1) * b == c * b - b;
  }

  lemma MulMonotonic(a: int, b: int, c: int)
    requires a <= b && c >= 0
    ensures a * c <= b * c
  {
    MulNonnegative(b - a, c);
    assert (b - a) * c == b * c - a * c;
  }

  lemma MulPositive(a: int, b: int)
    requires b > 0 && a * b > 0
    ensures a > 0
  {
    if a <= 0 {
      MulMonotonic(a, 0, b);
    }
  }

  /** What tunRead accepts: a read that fits its buffer, a fragment count that fits a byte. */
  predicate Fits(n: nat, maxPay: nat)
  {
    maxPay > 0 && HeaderLen + n <= BufferSize && CeilDiv(n, maxPay) < 0x100
  }

  /** `h.FragNum` (rxtx.go:79). */
  function FragCount(n: nat, maxPay: nat): nat
    requires maxPay > 0
  {
    CeilDiv(n, maxPay)
  }

  /** The first `payLen` (rxtx.go:82): the datagram shared out evenly. */
  function PayLen(n: nat, maxPay: nat): nat
    requires n > 0 && maxPay > 0
  {
    CeilDivBounds(n, maxPay);
    CeilDiv(n, FragCount(n, maxPay))
  }

  /** Payload length of fragment k: payLen, unless fewer bytes remain (rxtx.go:89-93). */
  function FragLen(n: nat, p: nat, k: nat): int
  {
    if n - k * p < p then n - k * p else p
  }

  /**
   The fragment count is the ceiling of n / maxPay, the even share is at most
   maxPay, and FragNum shares cover n with the last one non-empty.
   */
  lemma Geometry(n: nat, maxPay: nat)
    requires n > 0 && maxPay > 0
    ensures var f := FragCount(n, maxPay);
      f >= 1 && (f - 1) * maxPay < n <= f * maxPay
    ensures var f, p := FragCount(n, maxPay), PayLen(n, maxPay);
      1 <= p <= maxPay && p <= n && (f - 1) * p < n <= f * p
  {
    var f := FragCount(n, maxPay);
    CeilDivBounds(n, maxPay);
    MulPositive(f, maxPay);
    ShareBounds(n, maxPay, f);
  }

  /** Sharing n out evenly over f >= ceil(n / maxPay) fragments gives each at most maxPay and at most n bytes. */
  lemma ShareBounds(n: nat, maxPay: nat, f: nat)
    requires n > 0 && maxPay > 0 && f >= 1 && (f - 1) * maxPay < n <= f * maxPay
    ensures var p := CeilDiv(n, f);
      1 <= p <= maxPay && p <= n && (f - 1) * p < n <= f * p
  {
    var p := CeilDiv(n, f);
    CeilDivBounds(n, f);
    MulPositive(p, f);
    BelowBound(p, f, maxPay, n);
    MulMonotonic(1, f, n);
    BelowBound(p, f, n, n);
    MulMonotonic(p, maxPay, f - 1);
  }

  /** A share p with (p - 1) * f < n <= m * f is at most m. */
  lemma BelowBound(p: int, f: int, m: int, n: int)
    requires f > 0 && (p - 1) * f < n <= m * f
    ensures p <= m
  {
    if p > m {
      MulMonotonic(m, p - 1, f);
    }
  }

  /**
   Fragment k of FragNum is a non-empty slice of at most payLen bytes that
   starts at k * payLen inside the datagram; every fragment but the last is
   exactly payLen bytes and the last one ends the datagram.
   */
  lemma FragmentSlice(n: nat, maxPay: nat, k: nat)
    requires n > 0 && maxPay > 0 && k < FragCount(n, maxPay)
    ensures var f, p := FragCount(n, maxPay), PayLen(n, maxPay);
      && 0 < FragLen(n, p, k) <= p
      && k * p + FragLen(n, p, k) <= n
      && (k < f - 1 ==> FragLen(n, p, k) == p)
      && (k == f - 1 ==> k * p + FragLen(n, p, k) == n)
  {
    var f, p := FragCount(n, maxPay), PayLen(n, maxPay);
    Geometry(n, maxPay);
    if k < f - 1 {
      InnerSlice(n, f, p, k);
    } else {
      LastSlice(n, f, p);
    }
  }

  /** A fragment followed by another is a full payLen bytes and leaves more behind it. */
  lemma InnerSlice(n: nat, f: nat, p: nat, k: nat)
    requires p >= 1 && k + 1 < f && (f - 1) * p < n
    ensures FragLen(n, p, k) == p && k * p + p < n
  {
    MulMonotonic(k + 1, f - 1, p);
    MulSucc(k, p);
  }

  /** The last of f fragments holds the rest, between one and payLen bytes, and ends the datagram. */
  lemma LastSlice(n: nat, f: nat, p: nat)
    requires f >= 1 && p >= 1 && (f - 1) * p < n <= f * p
    ensures 0 < FragLen(n, p, f - 1) <= p && (f - 1) * p + FragLen(n, p, f - 1) == n
  {
    MulSucc(f - 1, p);
  }

  lemma MulSucc(a: int, p: int)
    ensures (a + 1) * p == a * p + p
  {
  }

  /** The payload length of the next fragment: payLen, or what remains when less does (rxtx.go:89-93). */
  function NextLen(rest: seq<byte>, p: nat): nat
  {
    if |rest| < p then |rest| else p
  }

  /** The packet for fragment k of f when rest holds the bytes not yet sent (rxtx.go:94-101). */
  function NextPacket(rest: seq<byte>, id: uint64, f: byte, p: uint16, blk: nat, k: nat): Packet
    requires IsPowerOfTwo(blk) && k < f
  {
    var len := NextLen(rest, p);
    Packet(EncodeBytes(Header(id, k, f, len)) + rest[..len], AlignUp(HeaderLen + len, blk))
  }

  /**
   The packets tunRead sends for fragments k..f-1 when rest holds the bytes
   not yet sent (rxtx.go:88-106): each fragment takes its share and the
   window slides past it.
   */
  function Split(rest: seq<byte>, id: uint64, f: byte, p: uint16, blk: nat, k: nat): (pkts: seq<Packet>)
    requires IsPowerOfTwo(blk) && k <= f
    decreases f - k
  {
    if k == f then []
    else [NextPacket(rest, id, f, p, blk, k)] + Split(rest[NextLen(rest, p)..], id, f, p, blk, k + 1)
  }

  /** The first packet of Split and the packets after it. */
  lemma SplitHead(rest: seq<byte>, id: uint64, f: byte, p: uint16, blk: nat, k: nat)
    requires IsPowerOfTwo(blk) && k < f
    ensures var pkts := Split(rest, id, f, p, blk, k);
      && |pkts| >= 1 && pkts[0] == NextPacket(rest, id, f, p, blk, k)
      && pkts[1..] == Split(rest[NextLen(rest, p)..], id, f, p, blk, k + 1)
  {
  }

  /**
   Sending the next packet and sliding the window past it keeps the packets
   sent so far plus those still to come equal to the whole.
   */
  lemma SlideWindow(sent: seq<Packet>, whole: seq<Packet>, rest: seq<byte>, id: uint64, f: byte, p: uint16,
                    blk: nat, k: nat, packet: Packet)
    requires IsPowerOfTwo(blk) && k < f
    requires sent + Split(rest, id, f, p, blk, k) == whole
    requires packet == NextPacket(rest, id, f, p, blk, k)
    ensures (sent + [packet]) + Split(rest[NextLen(rest, p)..], id, f, p, blk, k + 1) == whole
  {
    SplitHead(rest, id, f, p, blk, k);
    assert sent + Split(rest, id, f, p, blk, k)
        == (sent + [packet]) + Split(rest[NextLen(rest, p)..], id, f, p, blk, k + 1);
  }

  /** Every packet tunRead sends for datagram d with Id id, in order. */
  function Fragments(d: seq<byte>, maxPay: nat, blk: nat, id: uint64): (pkts: seq<Packet>)
    requires 0 < |d| && Fits(|d|, maxPay) && IsPowerOfTwo(blk)
  {
    Geometry(|d|, maxPay);
    Split(d, id, FragCount(|d|, maxPay), PayLen(|d|, maxPay), blk, 0)
  }

  /**
   Encodes h over the 12 bytes at buffer[lo..] and copies the header and the
   payload after it, usedLen bytes in all, to the front of pkt
   (rxtx.go:97-99).
   */
  method EncodeAndCopy(h: Header, buffer: array<byte>, lo: nat, usedLen: nat, hi: nat, pkt: array<byte>,
                       ghost rest: seq<byte>)
    returns (data: seq<byte>)
    requires buffer != pkt
    requires HeaderLen <= usedLen && lo + usedLen <= hi <= buffer.Length && usedLen <= pkt.Length
    requires rest == buffer[lo + HeaderLen..hi]
    modifies buffer, pkt
    ensures data == EncodeBytes(h) + rest[..usedLen - HeaderLen] && pkt[..usedLen] == data
    ensures buffer[lo + HeaderLen..hi] == rest
  {
    ghost var before := buffer[..];
    Encode(h, buffer, lo);
    SameWindow(buffer[..], before, lo + HeaderLen, hi);
    TakeFromSlice(buffer[..], lo + HeaderLen, usedLen - HeaderLen, hi);
    assert buffer[lo..lo + usedLen] == buffer[lo..lo + HeaderLen] + buffer[lo + HeaderLen..lo + usedLen];
    data := CopyOut(buffer, lo, usedLen, pkt);  // copy(pkt, buf[:usedLen])
  }

  /** `copy(pkt, buf[:usedLen])` (rxtx.go:99) for the window starting at lo: pkt begins with those n bytes. */
  method CopyOut(src: array<byte>, lo: nat, n: nat, pkt: array<byte>) returns (data: seq<byte>)
    requires src != pkt && lo + n <= src.Length && n <= pkt.Length
    modifies pkt
    ensures data == src[lo..lo + n] && pkt[..n] == data
  {
    for i := 0 to n
      invariant forall j | 0 <= j < i :: pkt[j] == src[lo + j]
    {
      pkt[i] := src[lo + i];
    }
    data := pkt[..n];
  }

  /** Two sequences that agree from k on agree on every window that starts at k. */
  lemma SameWindow<T>(a: seq<T>, b: seq<T>, k: nat, hi: nat)
    requires k <= hi <= |a| == |b| && a[k..] == b[k..]
    ensures a[k..hi] == b[k..hi]
  {
    assert a[k..hi] == a[k..][..hi - k];
    assert b[k..hi] == b[k..][..hi - k];
  }

  /**
   One turn of the fragment loop (rxtx.go:89-105) for the window
   `buffer[lo:hi]`: when fewer than payLen bytes remain, the lengths shrink to
   what remains; then header h with that Len is encoded in front of the
   payload and both are copied into pkt, and the window slides past the
   payload. The packet is the one Split prescribes for these remaining bytes.
   */
  method SendNext(buffer: array<byte>, pkt: array<byte>, lo: nat, hi: nat, h: Header, p: uint16, blk: nat,
                  payLen: int, usedLen: nat, pktLen: int, ghost rest: seq<byte>)
    returns (payLen': int, usedLen': nat, pktLen': int, packet: Packet, lo': nat, ghost rest': seq<byte>)
    requires buffer != pkt && IsPowerOfTwo(blk) && h.fragN < h.fragNum
    requires lo + HeaderLen <= hi <= buffer.Length && HeaderLen + p + blk <= pkt.Length
    requires rest == buffer[lo + HeaderLen..hi]
    requires usedLen == HeaderLen + payLen && pktLen == AlignUp(usedLen, blk)
    requires 0 <= payLen <= p && (payLen == p || rest == [])
    modifies buffer, pkt
    ensures payLen' == NextLen(rest, p) && rest' == rest[payLen'..]
    ensures usedLen' == HeaderLen + payLen' && pktLen' == AlignUp(usedLen', blk)
    ensures 0 <= payLen' <= p && (payLen' == p || rest' == [])
    ensures packet == NextPacket(rest, h.id, h.fragNum, p, blk, h.fragN)
    ensures packet.pktLen <= pkt.Length && pkt[..|packet.data|] == packet.data
    ensures lo' == lo + payLen' && lo' + HeaderLen <= hi && buffer[lo' + HeaderLen..hi] == rest'
  {
    payLen', usedLen', pktLen' := Shrink(lo, hi, p, blk, payLen, usedLen, pktLen, rest);
    var hd := h.(len := payLen');
    assert hd == Header(h.id, h.fragN, h.fragNum, NextLen(rest, p));
    var data := EncodeAndCopy(hd, buffer, lo, usedLen', hi, pkt, rest);
    AlignUpSpec(usedLen', blk);
    assert pktLen' <= pkt.Length;  // pkt[:pktLen] is in bounds
    packet := Packet(data, pktLen');
    DropFromSlice(buffer[..], lo + HeaderLen, payLen', hi);
    lo' := lo + payLen';  // buf = buf[payLen:]
    rest' := rest[payLen'..];
  }

  /**
   rxtx.go:89-93: when the window `buffer[lo:hi]` holds fewer than usedLen
   bytes, the lengths shrink to what it holds; payLen is then the share
   Split gives the next fragment of the remaining bytes rest.
   */
  method Shrink(lo: nat, hi: nat, p: uint16, blk: nat, payLen: int, usedLen: nat, pktLen: int, ghost rest: seq<byte>)
    returns (payLen': int, usedLen': nat, pktLen': int)
    requires IsPowerOfTwo(blk) && lo + HeaderLen <= hi && |rest| == hi - lo - HeaderLen
    requires usedLen == HeaderLen + payLen && pktLen == AlignUp(usedLen, blk)
    requires 0 <= payLen <= p && (payLen == p || rest == [])
    ensures payLen' == NextLen(rest, p) && 0 <= payLen' <= p && (payLen' == p || rest[payLen'..] == [])
    ensures usedLen' == HeaderLen + payLen' && pktLen' == AlignUp(usedLen', blk)
  {
    payLen', usedLen', pktLen' := payLen, usedLen, pktLen;
    if hi - lo < usedLen' {
      usedLen' := hi - lo;
      payLen' := usedLen' - HeaderLen;
      pktLen' := AlignUp(usedLen', blk);
    }
  }

  /** The first k elements of the slice s[lo..hi] are s[lo..lo + k]. */
  lemma TakeFromSlice<T>(s: seq<T>, lo: nat, k: nat, hi: nat)
    requires lo + k <= hi <= |s|
    ensures s[lo..hi][..k] == s[lo..lo + k]
  {
  }

  /** Dropping k elements from the slice s[lo..hi] leaves s[lo + k..hi]. */
  lemma DropFromSlice<T>(s: seq<T>, lo: nat, k: nat, hi: nat)
    requires lo + k <= hi <= |s|
    ensures s[lo..hi][k..] == s[lo + k..hi]
  {
  }

  /**
   The fragment loop of tunRead (rxtx.go:83-106): the datagram lies in
   buffer[12..12 + n], h carries its Id and FragNum, and every fragment
   takes payLen bytes but the last, which takes what remains. The window
   `buffer[lo:hi]` (the source's `buf`) slides forward by payLen, so each
   header is encoded over the bytes just before its fragment's payload.
   */
  method SendFragments(buffer: array<byte>, pkt: array<byte>, n: nat, hdr: Header, p: uint16, blk: nat)
    returns (pkts: seq<Packet>)
    requires buffer != pkt && IsPowerOfTwo(blk)
    requires HeaderLen + n <= buffer.Length && HeaderLen + p + blk <= pkt.Length
    modifies buffer, pkt
    ensures pkts == Split(old(buffer[HeaderLen..HeaderLen + n]), hdr.id, hdr.fragNum, p, blk, 0)
  {
    ghost var datagram := buffer[HeaderLen..HeaderLen + n];
    ghost var whole := Split(datagram, hdr.id, hdr.fragNum, p, blk, 0);
    var h := hdr;
    var payLen: int := p;
    var usedLen := HeaderLen + payLen;
    var pktLen := AlignUp(usedLen, blk);
    var lo, hi := 0, n + HeaderLen;  // buf = buf[:n+headerLen]
    ghost var rest := datagram;      // the bytes not yet sent
    pkts := [];
    h := h.(fragN := 0);
    while h.fragN < h.fragNum
      modifies buffer, pkt
      invariant h.id == hdr.id && h.fragNum == hdr.fragNum && h.fragN <= h.fragNum
      invariant HeaderLen <= lo + HeaderLen <= hi == n + HeaderLen
      invariant rest == buffer[lo + HeaderLen..hi]
      invariant usedLen == HeaderLen + payLen && pktLen == AlignUp(usedLen, blk)
      invariant 0 <= payLen <= p && (payLen == p || rest == [])
      invariant pkts + Split(rest, h.id, h.fragNum, p, blk, h.fragN) == whole
    {
      var packet;
      SlideWindow(pkts, whole, rest, h.id, h.fragNum, p, blk, h.fragN, NextPacket(rest, h.id, h.fragNum, p, blk, h.fragN));
      payLen, usedLen, pktLen, packet, lo, rest := SendNext(buffer, pkt, lo, hi, h, p, blk, payLen, usedLen, pktLen, rest);
      pkts := pkts + [packet];  // con.Write(pkt[:pktLen])
      h := h.(fragN := h.fragN + 1);
    }
    SplitLength(rest, h.id, h.fragNum, p, blk, h.fragN);
  }

  /** `tun.Read(buf[headerLen:])` (rxtx.go:72-73): d lands in a fresh buffer after room for the header. */
  method ReadDatagram(d: seq<byte>) returns (buffer: array<byte>)
    requires HeaderLen + |d| <= BufferSize
    ensures fresh(buffer) && buffer.Length == BufferSize && buffer[HeaderLen..HeaderLen + |d|] == d
  {
    buffer := new byte[BufferSize];
    for i := 0 to |d|
      invariant forall k | 0 <= k < i :: buffer[HeaderLen + k] == d[k]
    {
      buffer[HeaderLen + i] := d[i];
    }
    assert forall k | 0 <= k < |d| :: buffer[HeaderLen..HeaderLen + |d|][k] == d[k];
  }

  /**
   The body of tunRead's loop for one datagram d (rxtx.go:72-107), with the
   transport writes collected as the returned packets and `h.Id` passed in
   and out.
   */
  method Fragment(d: seq<byte>, maxPay: nat, blk: nat, id: uint64) returns (pkts: seq<Packet>, next: uint64)
    requires Fits(|d|, maxPay) && IsPowerOfTwo(blk)
    ensures |d| == 0 ==> pkts == [] && next == id
    ensures |d| > 0 ==> pkts == Fragments(d, maxPay, blk, id) && next == (id + 1) % TwoTo64
  {
    var n := |d|;
    if n == 0 {
      return [], id;  // `continue`: no packet, Id unchanged
    }
    var buffer := ReadDatagram(d);
    var pkt := new byte[HeaderLen + maxPay + 2 * blk];
    Geometry(n, maxPay);
    var h := Header(id, 0, 0, 0);
    h := h.(fragNum := (n + maxPay - 1) / maxPay);
    var payLen := (n + h.fragNum - 1) / h.fragNum;  // Equally fill all h.FragNum packets.
    assert h.fragNum == FragCount(n, maxPay) && payLen == PayLen(n, maxPay);
    assert buffer[HeaderLen..HeaderLen + n] == d;
    pkts := SendFragments(buffer, pkt, n, h, payLen, blk);
    assert pkts == Split(d, id, FragCount(n, maxPay), PayLen(n, maxPay), blk, 0);
    next := (id + 1) % TwoTo64;  // h.Id++ wraps around
  }

  /** Fragments k..f-1 of Split are f - k packets. */
  lemma {:induction false} SplitLength(rest: seq<byte>, id: uint64, f: byte, p: uint16, blk: nat, k: nat)
    requires IsPowerOfTwo(blk) && k <= f
    ensures |Split(rest, id, f, p, blk, k)| == f - k
    decreases f - k
  {
    if k < f {
      SplitLength(rest[NextLen(rest, p)..], id, f, p, blk, k + 1);
    }
  }

  /** m * p, counted out one payLen at a time as the window slides. */
  function Offset(m: nat, p: nat): nat
  {
    if m == 0 then 0 else Offset(m - 1, p) + p
  }

  lemma {:induction false} OffsetIsProduct(m: nat, p: nat)
    ensures Offset(m, p) == m * p
  {
    if m > 0 {
      OffsetIsProduct(m - 1, p);
      assert m * p == (m - 1) * p + p;
    }
  }

  /** Packet j of Split is the packet for fragment j over what remains after Offset(j - k, p) bytes. */
  lemma {:induction false} SplitAt(rest: seq<byte>, id: uint64, f: byte, p: uint16, blk: nat, k: nat, j: nat)
    requires IsPowerOfTwo(blk) && k <= j < f && Offset(j - k, p) <= |rest|
    ensures |Split(rest, id, f, p, blk, k)| == f - k
    ensures Split(rest, id, f, p, blk, k)[j - k] == NextPacket(rest[Offset(j - k, p)..], id, f, p, blk, j)
    decreases j - k
  {
    SplitLength(rest, id, f, p, blk, k);
    if j == k {
      SplitHead(rest, id, f, p, blk, k);
      assert rest[0..] == rest;
    } else {
      assert Offset(j - k, p) == Offset(j - (k + 1), p) + p;
      SplitAt(rest[p..], id, f, p, blk, k + 1, j);
      SplitLater(rest, id, f, p, blk, k, j);
    }
  }

  /** Packet j of Split from fragment k is packet j of Split from fragment k + 1 over what follows fragment k's share. */
  lemma SplitLater(rest: seq<byte>, id: uint64, f: byte, p: uint16, blk: nat, k: nat, j: nat)
    requires IsPowerOfTwo(blk) && k < j < f && Offset(j - k, p) <= |rest|
    requires Offset(j - k, p) == Offset(j - (k + 1), p) + p
    requires |Split(rest[p..], id, f, p, blk, k + 1)| == f - (k + 1)
    requires Split(rest[p..], id, f, p, blk, k + 1)[j - (k + 1)]
      == NextPacket(rest[p..][Offset(j - (k + 1), p)..], id, f, p, blk, j)
    ensures |Split(rest, id, f, p, blk, k)| == f - k
    ensures Split(rest, id, f, p, blk, k)[j - k] == NextPacket(rest[Offset(j - k, p)..], id, f, p, blk, j)
  {
    var o' := Offset(j - (k + 1), p);
    SplitHead(rest, id, f, p, blk, k);
    assert NextLen(rest, p) == p;
    var pkts, later := Split(rest, id, f, p, blk, k), Split(rest[p..], id, f, p, blk, k + 1);
    assert pkts[1..] == later;
    assert rest[p..][o'..] == rest[o' + p..];
    assert pkts[j - k] == later[j - (k + 1)];
  }

  /** Fragment j's window starts j * payLen bytes into d and its share is FragLen. */
  lemma WindowAt(d: seq<byte>, maxPay: nat, j: nat)
    requires 0 < |d| && Fits(|d|, maxPay) && j < FragCount(|d|, maxPay)
    ensures var n, f, p := |d|, FragCount(|d|, maxPay), PayLen(|d|, maxPay);
      var len := FragLen(n, p, j);
      && 1 <= f < 0x100 && 0 < len <= p <= maxPay && (j < f - 1 ==> len == p)
      && Offset(j, p) + len <= n && NextLen(d[Offset(j, p)..], p) == len
  {
    var n, p := |d|, PayLen(|d|, maxPay);
    Geometry(n, maxPay);
    FragmentSlice(n, maxPay, j);
    OffsetIsProduct(j, p);
  }

  /**
   Packet j of the packets sent for d: header (id, j, FragNum, len) followed
   by the len bytes of d that start Offset(j, payLen) = j * payLen bytes in,
   len being the fragment's length, and pktLen the header and payload
   rounded up to whole blocks.
   */
  lemma FragmentsAt(d: seq<byte>, maxPay: nat, blk: nat, id: uint64, j: nat)
    requires 0 < |d| && Fits(|d|, maxPay) && IsPowerOfTwo(blk)
    requires j < FragCount(|d|, maxPay)
    ensures |Fragments(d, maxPay, blk, id)| == FragCount(|d|, maxPay)
    ensures var n, f, p := |d|, FragCount(|d|, maxPay), PayLen(|d|, maxPay);
      var len, o := FragLen(n, p, j), Offset(j, p);
      && f < 0x100 && 0 <= len <= n < BufferSize && o + len <= n
      && var pkt := Fragments(d, maxPay, blk, id)[j];
      && pkt.data == EncodeBytes(Header(id, j, f, len)) + d[o..o + len]
      && pkt.pktLen == AlignUp(HeaderLen + len, blk)
  {
    var n, f, p := |d|, FragCount(|d|, maxPay), PayLen(|d|, maxPay);
    WindowAt(d, maxPay, j);
    var len := FragLen(n, p, j);
    assert f < 0x100 && 0 <= len <= n < BufferSize && Offset(j, p) + len <= n;
    assert Fragments(d, maxPay, blk, id) == Split(d, id, f, p, blk, 0);
    SplitPacketAt(d, id, f, p, blk, j, len);
  }

  /** Packet j of Split from the start of rest, once the length it takes is known. */
  lemma SplitPacketAt(rest: seq<byte>, id: uint64, f: byte, p: uint16, blk: nat, j: nat, len: nat)
    requires IsPowerOfTwo(blk) && j < f && Offset(j, p) + len <= |rest|
    requires len == NextLen(rest[Offset(j, p)..], p)
    ensures |Split(rest, id, f, p, blk, 0)| == f
    ensures var o, pkt := Offset(j, p), Split(rest, id, f, p, blk, 0)[j];
      && pkt.data == EncodeBytes(Header(id, j, f, len)) + rest[o..o + len]
      && pkt.pktLen == AlignUp(HeaderLen + len, blk)
  {
    var o := Offset(j, p);
    SplitAt(rest, id, f, p, blk, 0, j);
    NextPacketFields(rest[o..], id, f, p, blk, j, len);
    DropThenTake(rest, o, len);
  }

  /** The packet for fragment k is the header with Len the share len, then those len bytes, rounded up to blocks. */
  lemma NextPacketFields(rest: seq<byte>, id: uint64, f: byte, p: uint16, blk: nat, k: nat, len: nat)
    requires IsPowerOfTwo(blk) && k < f && len == NextLen(rest, p)
    ensures NextPacket(rest, id, f, p, blk, k).data == EncodeBytes(Header(id, k, f, len)) + rest[..len]
    ensures NextPacket(rest, id, f, p, blk, k).pktLen == AlignUp(HeaderLen + len, blk)
  {
  }

  lemma DropThenTake<T>(s: seq<T>, o: nat, len: nat)
    requires o + len <= |s|
    ensures s[o..][..len] == s[o..o + len]
  {
  }

  /**
   Every packet sent for d is well formed: its header carries the datagram's
   Id, its own index below FragNum and a payload length between 1 and
   maxPay; every fragment but the last carries exactly payLen bytes; the
   wire length is a multiple of blk that holds the header and payload with
   less than one block of padding, so it fits the `pkt` buffer.
   */
  lemma FragmentWellFormed(d: seq<byte>, maxPay: nat, blk: nat, id: uint64, j: nat)
    requires 0 < |d| && Fits(|d|, maxPay) && IsPowerOfTwo(blk)
    requires j < FragCount(|d|, maxPay)
    ensures |Fragments(d, maxPay, blk, id)| == FragCount(|d|, maxPay)
    ensures var pkt := Fragments(d, maxPay, blk, id)[j];
      var f, p := FragCount(|d|, maxPay), PayLen(|d|, maxPay);
      && |pkt.data| >= HeaderLen
      && var h := HeaderOf(pkt);
      && h.id == id && h.fragN == j && h.fragNum == f && 1 <= f < 0x100
      && h.len == |PayloadOf(pkt)| && 0 < h.len <= p <= maxPay
      && (j < f - 1 ==> h.len == p)
      && pkt.pktLen % blk == 0 && HeaderLen + h.len <= pkt.pktLen < HeaderLen + h.len + blk
      && pkt.pktLen <= HeaderLen + maxPay + 2 * blk
  {
    var n, f, p := |d|, FragCount(|d|, maxPay), PayLen(|d|, maxPay);
    WindowAt(d, maxPay, j);
    FragmentsAt(d, maxPay, blk, id, j);
    var len := FragLen(n, p, j);
    var payload := d[Offset(j, p)..Offset(j, p) + len];
    PacketFraming(Fragments(d, maxPay, blk, id)[j], Header(id, j, f, len), payload, blk);
  }

  /**
   A packet made of the encoding of h, its Len bytes of payload and a
   wire length of header and payload rounded up to whole blocks decodes to
   h and that payload, with less than one block of padding.
   */
  lemma PacketFraming(pkt: Packet, h: Header, payload: seq<byte>, blk: nat)
    requires IsPowerOfTwo(blk) && |payload| == h.len
    requires pkt.data == EncodeBytes(h) + payload && pkt.pktLen == AlignUp(HeaderLen + h.len, blk)
    ensures |pkt.data| >= HeaderLen && HeaderOf(pkt) == h && PayloadOf(pkt) == payload
    ensures pkt.pktLen % blk == 0 && HeaderLen + h.len <= pkt.pktLen < HeaderLen + h.len + blk
  {
    DecodeEncodedPrefix(h, payload);
    assert (EncodeBytes(h) + payload)[HeaderLen..] == payload;
    AlignUpSpec(HeaderLen + h.len, blk);
  }

  /** Every packet begins with a whole header. */
  predicate Framed(pkts: seq<Packet>)
  {
    forall i | 0 <= i < |pkts| :: |pkts[i].data| >= HeaderLen
  }

  /** The payloads of a run of packets, end to end. */
  function Payloads(pkts: seq<Packet>): seq<byte>
    requires Framed(pkts)
  {
    if pkts == [] then [] else PayloadOf(pkts[0]) + Payloads(pkts[1..])
  }

  lemma {:induction false} SplitFramed(rest: seq<byte>, id: uint64, f: byte, p: uint16, blk: nat, k: nat)
    requires IsPowerOfTwo(blk) && k <= f
    ensures Framed(Split(rest, id, f, p, blk, k))
    decreases f - k
  {
    if k < f {
      SplitHead(rest, id, f, p, blk, k);
      var pkts := Split(rest, id, f, p, blk, k);
      SplitFramed(rest[NextLen(rest, p)..], id, f, p, blk, k + 1);
      forall i | 1 <= i < |pkts|
        ensures |pkts[i].data| >= HeaderLen
      {
        assert pkts[i] == pkts[1..][i - 1];
      }
    }
  }

  /** The packets Split sends from fragment k each begin with a header, and their payloads, end to end, are rest. */
  predicate Covers(rest: seq<byte>, id: uint64, f: byte, p: uint16, blk: nat, k: nat)
    requires IsPowerOfTwo(blk) && k <= f
  {
    Framed(Split(rest, id, f, p, blk, k)) && Payloads(Split(rest, id, f, p, blk, k)) == rest
  }

  lemma {:induction false} SplitPayloads(rest: seq<byte>, id: uint64, f: byte, p: uint16, blk: nat, k: nat)
    requires IsPowerOfTwo(blk) && k <= f && |rest| <= Offset(f - k, p)
    ensures Covers(rest, id, f, p, blk, k)
    decreases f - k
  {
    if k < f {
      assert Offset(f - k, p) == Offset(f - (k + 1), p) + p;
      SplitPayloads(rest[NextLen(rest, p)..], id, f, p, blk, k + 1);
      PayloadsStep(rest, id, f, p, blk, k);
    } else {
      assert Split(rest, id, f, p, blk, k) == [];
    }
  }

  /** The payload of the packet for the next fragment is the share it takes of rest. */
  lemma PayloadOfNext(rest: seq<byte>, id: uint64, f: byte, p: uint16, blk: nat, k: nat)
    requires IsPowerOfTwo(blk) && k < f
    ensures var pkt := NextPacket(rest, id, f, p, blk, k);
      |pkt.data| >= HeaderLen && PayloadOf(pkt) == rest[..NextLen(rest, p)]
  {
    var len := NextLen(rest, p);
    var head := EncodeBytes(Header(id, k, f, len));
    assert (head + rest[..len])[HeaderLen..] == rest[..len];
  }

  /** Split from fragment k covers rest when the fragments after k cover what the next one leaves. */
  lemma PayloadsStep(rest: seq<byte>, id: uint64, f: byte, p: uint16, blk: nat, k: nat)
    requires IsPowerOfTwo(blk) && k < f && Covers(rest[NextLen(rest, p)..], id, f, p, blk, k + 1)
    ensures Covers(rest, id, f, p, blk, k)
  {
    var len := NextLen(rest, p);
    SplitFramed(rest, id, f, p, blk, k);
    SplitHead(rest, id, f, p, blk, k);
    PayloadOfNext(rest, id, f, p, blk, k);
    var pkts := Split(rest, id, f, p, blk, k);
    assert Payloads(pkts) == PayloadOf(pkts[0]) + Payloads(pkts[1..]);
    assert rest == rest[..len] + rest[len..];
  }

  /** The payloads of the packets sent for d, end to end, are d: nothing is lost, repeated or reordered. */
  lemma FragmentsCoverDatagram(d: seq<byte>, maxPay: nat, blk: nat, id: uint64)
    requires 0 < |d| && Fits(|d|, maxPay) && IsPowerOfTwo(blk)
    ensures Framed(Fragments(d, maxPay, blk, id))
    ensures Payloads(Fragments(d, maxPay, blk, id)) == d
  {
    Geometry(|d|, maxPay);
    OffsetIsProduct(FragCount(|d|, maxPay), PayLen(|d|, maxPay));
    SplitPayloads(d, id, FragCount(|d|, maxPay), PayLen(|d|, maxPay), blk, 0);
  }

  /** A datagram of at most maxPay bytes is one fragment of all its bytes. */
  lemma OneShare(n: nat, maxPay: nat)
    requires 0 < n <= maxPay
    ensures FragCount(n, maxPay) == 1 && PayLen(n, maxPay) == n
  {
    Geometry(n, maxPay);
    if FragCount(n, maxPay) > 1 {
      MulMonotonic(1, FragCount(n, maxPay) - 1, maxPay);
    }
  }

  /** A datagram of at most maxPay bytes travels whole in one packet with FragNum 1. */
  lemma SingleFragment(d: seq<byte>, maxPay: nat, blk: nat, id: uint64)
    requires 0 < |d| <= maxPay && Fits(|d|, maxPay) && IsPowerOfTwo(blk)
    ensures Fragments(d, maxPay, blk, id)
      == [Packet(EncodeBytes(Header(id, 0, 1, |d|)) + d, AlignUp(HeaderLen + |d|, blk))]
  {
    var n := |d|;
    OneShare(n, maxPay);
    FragmentsAt(d, maxPay, blk, id, 0);
    assert FragLen(n, n, 0) == n && Offset(0, n) == 0;
    assert d[0..n] == d;
  }
}
