/**
 The receiving half of the tunnel, as a function of its state: what the body
 of `tunWrite`'s loop (rxtx.go:130-208) does with one packet read from the
 transport. The state is the table `dtab` of three `defrag` slots; a slot
 holds a datagram Id and its `Frags` slice, modelled as the slice's backing
 array (its capacity) and the slice's length.
 */
module Reassembly {
  import opened Wrappers
  import opened Wire
  import opened Align

  /** `len(dtab)` (rxtx.go:124). */
  const TableSize: nat := 3

  /** `headerLen + 20`: a header and the smallest IP header (rxtx.go:133). */
  const MinPacket: nat := HeaderLen + 20

  /** `cap(d.Frags)` (rxtx.go:126): room for the fragments of a datagram that fills the buffer. */
  function Capacity(maxPay: nat): nat
    requires maxPay > 0
  {
    (BufferSize + maxPay - 1) / maxPay
  }

  /** A fragment as a slot keeps it: a nil slice or a byte slice. */
  type Frag = Option<seq<byte>>

  /** A `defrag` entry: its Id, the backing array of `Frags` and the length of `Frags`. */
  datatype Slot = Slot(id: uint64, store: seq<Frag>, len: nat)

  /** `d.Frags`: the first len entries of the backing array. */
  function Frags(s: Slot): seq<Frag>
    requires s.len <= |s.store|
  {
    s.store[..s.len]
  }

  /** A slot's backing array has the capacity tunWrite allocates, and no slice exceeds maxPay, its capacity. */
  predicate WellFormed(s: Slot, maxPay: nat)
  {
    && maxPay > 0 && |s.store| == Capacity(maxPay) && s.len <= |s.store|
    && forall i | 0 <= i < |s.store| :: s.store[i].Some? ==> |s.store[i].value| <= maxPay
  }

  predicate TableWellFormed(t: seq<Slot>, maxPay: nat)
  {
    |t| == TableSize && forall i | 0 <= i < |t| :: WellFormed(t[i], maxPay)
  }

  /** A slot as tunWrite allocates it (rxtx.go:125-127): Id 0, `Frags` empty, every entry of the backing array nil. */
  function EmptySlot(maxPay: nat): (s: Slot)
    requires maxPay > 0
    ensures WellFormed(s, maxPay) && Frags(s) == []
    ensures forall i | 0 <= i < |s.store| :: s.store[i] == None
  {
    Slot(0, seq(Capacity(maxPay), _ => None), 0)
  }

  datatype Outcome =
    | NoData                   // n == 0: nothing happens
    | TooShort                 // 0 < n < headerLen + 20: dropped with a log line
    | BadSize(want: int)       // n != blkAlignUp(headerLen + Len): dropped with a log line
    | BadHeader                // the slot cannot take the fragment: dropped with a log line
    | Pending                  // the fragment was handled and the datagram is not complete
    | Deliver(data: seq<byte>) // `tun.Write(buf[:n])`
    | Crash                    // the Go runtime panics: an index or a slice bound out of range

  /**
   What one packet does: its outcome, how the slots in dtab are reordered
   (new position i holds the slot that was at position order[i]) and the
   states of the slots in their new order.
   */
  datatype Effect = Effect(out: Outcome, order: seq<nat>, table: seq<Slot>)

  /** s rearranged so that position i holds s[order[i]]. */
  function Arrange<T>(s: seq<T>, order: seq<nat>): seq<T>
    requires forall i | 0 <= i < |order| :: order[i] < |s|
  {
    seq(|order|, i requires 0 <= i < |order| => s[order[i]])
  }

  /** `copy(dtab[1:], dtab); dtab[0] = cur` with cur the last slot (rxtx.go:155-157). */
  function TailToHead<T>(s: seq<T>): seq<T>
    requires |s| > 0
  {
    [s[|s| - 1]] + s[..|s| - 1]
  }

  /** `copy(dtab[cn:], dtab[cn+1:]); dtab[len(dtab)-1] = cur` with cur slot cn (rxtx.go:194-195). */
  function ToTail<T>(s: seq<T>, cn: nat): seq<T>
    requires cn < |s|
  {
    s[..cn] + s[cn + 1..] + [s[cn]]
  }

  const Identity: seq<nat> := [0, 1, 2]

  /** Position i of the table holds the slot from position order[i], each slot once. */
  predicate IsPermutation(order: seq<nat>)
  {
    && |order| == TableSize
    && (forall i | 0 <= i < |order| :: order[i] < TableSize)
    && (forall i, j | 0 <= i < j < |order| :: order[i] != order[j])
  }

  /** The first slot whose Id is id (rxtx.go:147-153). */
  function FindSlot(t: seq<Slot>, id: uint64): (r: Option<nat>)
    ensures r.Some? ==> r.value < |t| && t[r.value].id == id
    ensures r.Some? ==> forall j | 0 <= j < r.value :: t[j].id != id
    ensures r.None? ==> forall j | 0 <= j < |t| :: t[j].id != id
  {
    if t == [] then None
    else if t[0].id == id then Some(0)
    else match FindSlot(t[1..], id)
      case None => None
      case Some(i) => Some(i + 1)
  }

  /**
   The slot a fragment goes to and how dtab is reordered first (rxtx.go:143-158):
   a slot with the same Id stays where it is; otherwise the last slot is
   taken and moved to the front, whatever it holds.
   */
  function Locate(t: seq<Slot>, id: uint64): (r: (seq<nat>, nat))
    requires |t| == TableSize
  {
    match FindSlot(t, id)
    case Some(i) => (Identity, i)
    case None => (TailToHead(Identity), 0)
  }

  /** The slot Locate picks, by where it is in the table before the packet. */
  function Target(t: seq<Slot>, id: uint64): Slot
    requires |t| == TableSize
  {
    match FindSlot(t, id)
    case Some(i) => t[i]
    case None => t[TableSize - 1]
  }

  /** After Locate's reordering, position cn holds the target slot and the order is a permutation. */
  lemma LocateTarget(t: seq<Slot>, id: uint64)
    requires |t| == TableSize
    ensures var (order, cn) := Locate(t, id);
      IsPermutation(order) && cn < TableSize && Arrange(t, order)[cn] == Target(t, id)
    ensures FindSlot(t, id).None? ==> Arrange(t, Locate(t, id).0) == TailToHead(t)
  {
    if FindSlot(t, id).None? {
      assert Arrange(t, Locate(t, id).0) == TailToHead(t);
    }
  }

  /** The bytes of a fragment: a nil slice has none. */
  function Bytes(f: Frag): seq<byte>
  {
    match f
    case None => []
    case Some(v) => v
  }

  /**
   `frag := cur.Frags[h.FragN]`, a fresh slice when nil, then `frag =
   frag[:h.Len]; copy(frag, buf[headerLen:])` (rxtx.go:171-176): frag is
   never stored back. A nil entry stays nil; a non-nil entry shares its
   backing array with frag, so the bytes it shows that frag covers are
   overwritten.
   */
  function Fill(entry: Frag, payload: seq<byte>): (r: Frag)
    ensures r.Some? <==> entry.Some?
    ensures entry.Some? ==> |r.value| == |entry.value|
    ensures entry.Some? ==> forall i | 0 <= i < |r.value| ::
      r.value[i] == if i < |payload| then payload[i] else entry.value[i]
  {
    match entry
    case None => None
    case Some(v) => Some(if |payload| < |v| then payload + v[|payload|..] else payload[..|v|])
  }

  /** The range loop of rxtx.go:177-186 ends on a nil fragment unless every fragment is present. */
  predicate Complete(frags: seq<Frag>)
  {
    forall i | 0 <= i < |frags| :: frags[i].Some?
  }

  /** The fragments end to end. */
  function Joined(frags: seq<Frag>): seq<byte>
  {
    if frags == [] then [] else Bytes(frags[0]) + Joined(frags[1..])
  }

  /** The first room bytes of s, or all of s when it is shorter. */
  function Prefix(s: seq<byte>, room: nat): (r: seq<byte>)
    ensures |r| <= room && r <= s
    ensures |s| <= room ==> r == s
  {
    if |s| <= room then s else s[..room]
  }

  /**
   `n += copy(buf[n:], frag)` for every fragment (rxtx.go:188-192): each copy
   takes as many bytes as the fragment has and buf still has room for.
   */
  function Gathered(frags: seq<Frag>, room: nat): seq<byte>
  {
    if frags == [] then []
    else
      var b := Bytes(frags[0]);
      var c := if |b| <= room then |b| else room;
      b[..c] + Gathered(frags[1..], room - c)
  }

  /** The copies into buf lay the fragments end to end, cut off where buf ends. */
  lemma {:induction false} GatheredIsPrefix(frags: seq<Frag>, room: nat)
    ensures Gathered(frags, room) == Prefix(Joined(frags), room)
  {
    if frags != [] {
      var b := Bytes(frags[0]);
      var c := if |b| <= room then |b| else room;
      GatheredIsPrefix(frags[1..], room - c);
      var rest := Joined(frags[1..]);
      assert Joined(frags) == b + rest;
      if |b| > room {
        assert Prefix(rest, 0) == [];
        assert (b + rest)[..room] == b[..room];
      } else if |b + rest| <= room {
      } else {
        assert (b + rest)[..room] == b + rest[..room - |b|];
      }
    }
  }

  /** `cur.Frags[i] = frag[:0]` for every fragment (rxtx.go:191): each keeps its backing array and shows no bytes. */
  function Emptied(store: seq<Frag>, len: nat): (r: seq<Frag>)
    requires len <= |store|
  {
    seq(|store|, i requires 0 <= i < |store| =>
      if i < len then Truncated(store[i]) else store[i])
  }

  /** `frag[:0]`: a nil slice stays nil, any other keeps its backing array and shows no bytes. */
  function Truncated(f: Frag): Frag
  {
    match f
    case None => None
    case Some(_) => Some([])
  }

  /** The checks of rxtx.go:159-165: the slot is not collecting FragNum fragments and cannot start to. */
  predicate Rejected(cur: Slot, h: Header, maxPay: nat)
    requires maxPay > 0
  {
    cur.len != h.fragNum && (Capacity(maxPay) < h.fragNum || h.fragN >= h.fragNum || cur.len != 0)
  }

  /** rxtx.go:166-169: a slot with no fragments takes the packet's Id and FragNum entries of its backing array. */
  function Admit(cur: Slot, h: Header): Slot
  {
    if cur.len != h.fragNum then Slot(h.id, cur.store, h.fragNum) else cur
  }

  /** `cur.Frags[h.FragN]` is out of range, or `frag[:h.Len]` exceeds the capacity maxPay (rxtx.go:171-175). */
  predicate Faults(cur: Slot, h: Header, maxPay: nat)
  {
    h.fragN >= cur.len || h.len > maxPay
  }

  /** The entry for fragment FragN after rxtx.go:171-176. */
  function Place(cur: Slot, h: Header, payload: seq<byte>): Slot
    requires h.fragN < |cur.store|
  {
    cur.(store := cur.store[h.fragN := Fill(cur.store[h.fragN], payload)])
  }

  /** rxtx.go:189-193: every fragment emptied and `Frags` resliced to length zero. */
  function Release(cur: Slot): Slot
    requires cur.len <= |cur.store|
  {
    Slot(cur.id, Emptied(cur.store, cur.len), 0)
  }

  /**
   What the fragment path does once it has chosen slot cn of t1
   (rxtx.go:159-195): the outcome, whether the slot moves to the end of
   dtab, and the slots' states afterwards, in their new order.
   */
  datatype Handled = Handled(out: Outcome, moved: bool, table: seq<Slot>)

  function Collect(t1: seq<Slot>, cn: nat, h: Header, payload: seq<byte>, maxPay: nat): Handled
    requires TableWellFormed(t1, maxPay) && cn < TableSize && h.fragNum > 1 && |payload| == h.len
  {
    var cur := t1[cn];
    if Rejected(cur, h, maxPay) then
      Handled(BadHeader, false, t1)
    else
      var cur1 := Admit(cur, h);
      if Faults(cur1, h, maxPay) then
        Handled(Crash, false, t1[cn := cur1])
      else
        var cur2 := Place(cur1, h, payload);
        if !Complete(Frags(cur2)) then
          Handled(Pending, false, t1[cn := cur2])
        else
          Handled(Deliver(Gathered(Frags(cur2), BufferSize)), true, ToTail(t1[cn := Release(cur2)], cn))
  }

  /**
   The fragment path (rxtx.go:142-196) for a packet whose header h has
   FragNum > 1 and whose payload is the Len bytes after the header.
   */
  function Reassemble(t: seq<Slot>, h: Header, payload: seq<byte>, maxPay: nat): Effect
    requires TableWellFormed(t, maxPay) && h.fragNum > 1 && |payload| == h.len
  {
    LocateTarget(t, h.id);
    var (order, cn) := Locate(t, h.id);
    var t1 := Arrange(t, order);
    var c := Collect(t1, cn, h, payload, maxPay);
    Effect(c.out, if c.moved then ToTail(order, cn) else order, c.table)
  }

  /** The body of tunWrite's loop for one packet p (rxtx.go:130-208). */
  function Step(t: seq<Slot>, p: seq<byte>, maxPay: nat, blk: nat): Effect
    requires TableWellFormed(t, maxPay) && IsPowerOfTwo(blk)
  {
    if |p| >= MinPacket then
      var h := DecodeBytes(p);
      var pktLen := AlignUp(HeaderLen + h.len, blk);
      if |p| != pktLen then Effect(BadSize(pktLen), Identity, t)
      else if h.fragNum <= 1 then Effect(Deliver(p), Identity, t)
      else
        AlignUpSpec(HeaderLen + h.len, blk);
        Reassemble(t, h, p[HeaderLen..HeaderLen + h.len], maxPay)
    else if |p| > 0 then Effect(TooShort, Identity, t)
    else Effect(NoData, Identity, t)
  }

  /** The packet has the size its header announces and takes the fragment path. */
  predicate Fragmented(p: seq<byte>, blk: nat)
    requires IsPowerOfTwo(blk)
  {
    |p| >= MinPacket && |p| == AlignUp(HeaderLen + DecodeBytes(p).len, blk) && DecodeBytes(p).fragNum > 1
  }

  /** The fragment path of Step is Reassemble on the packet's header and the Len bytes after it. */
  lemma FragmentPath(t: seq<Slot>, p: seq<byte>, maxPay: nat, blk: nat)
    requires TableWellFormed(t, maxPay) && IsPowerOfTwo(blk) && Fragmented(p, blk)
    ensures HeaderLen + DecodeBytes(p).len <= |p|
    ensures var h := DecodeBytes(p);
      Step(t, p, maxPay, blk) == Reassemble(t, h, p[HeaderLen..HeaderLen + h.len], maxPay)
  {
    AlignUpSpec(HeaderLen + DecodeBytes(p).len, blk);
  }

  /**
   The size checks of rxtx.go:133-141 and 206-208: an empty read does
   nothing, a read shorter than headerLen + 20 is too short, a packet whose
   length is not its header's Len rounded up to whole blocks has a bad size;
   none of them touches dtab. A well-sized packet with FragNum 0 or 1 is
   written to the tun device whole, header and padding included (rxtx.go:197).
   */
  lemma SizeChecks(t: seq<Slot>, p: seq<byte>, maxPay: nat, blk: nat)
    requires TableWellFormed(t, maxPay) && IsPowerOfTwo(blk)
    ensures var e := Step(t, p, maxPay, blk);
      && (e.out == NoData <==> |p| == 0)
      && (e.out == TooShort <==> 0 < |p| < MinPacket)
      && (e.out.BadSize? <==> |p| >= MinPacket && |p| != AlignUp(HeaderLen + DecodeBytes(p).len, blk))
      && (e.out.BadSize? ==> e.out.want == AlignUp(HeaderLen + DecodeBytes(p).len, blk))
      && (e.out == NoData || e.out == TooShort || e.out.BadSize? ==> e.order == Identity && e.table == t)
    ensures var e := Step(t, p, maxPay, blk);
      (|p| >= MinPacket && |p| == AlignUp(HeaderLen + DecodeBytes(p).len, blk) && DecodeBytes(p).fragNum <= 1)
        ==> e == Effect(Deliver(p), Identity, t)
  {
    if Fragmented(p, blk) {
      FragmentPath(t, p, maxPay, blk);
    }
  }

  /** Arranging by the order that brings the last slot to the front is moving the last element to the front. */
  lemma ArrangeTailToHead<T>(s: seq<T>)
    requires |s| == TableSize
    ensures IsPermutation(TailToHead(Identity)) && Arrange(s, TailToHead(Identity)) == TailToHead(s)
  {
    assert TailToHead(Identity) == [2, 0, 1];
  }

  /** Arranging by the identity order changes nothing. */
  lemma ArrangeIdentity<T>(s: seq<T>)
    requires |s| == TableSize
    ensures IsPermutation(Identity) && Arrange(s, Identity) == s
  {
  }

  /** Moving one element to the back keeps a permutation a permutation. */
  lemma ToTailPermutation(order: seq<nat>, cn: nat)
    requires IsPermutation(order) && cn < TableSize
    ensures IsPermutation(ToTail(order, cn))
  {
    var o := ToTail(order, cn);
    if cn == 0 {
      assert o == [order[1], order[2], order[0]];
    } else if cn == 1 {
      assert o == [order[0], order[2], order[1]];
    } else {
      assert o == order;
    }
  }

  /** Arranging by a moved-to-the-back order is moving to the back after arranging. */
  lemma ArrangeToTail<T>(s: seq<T>, order: seq<nat>, cn: nat)
    requires IsPermutation(order) && |s| == TableSize && cn < TableSize
    ensures Arrange(s, ToTail(order, cn)) == ToTail(Arrange(s, order), cn)
  {
  }

  /** A well-formed slot stays well formed through every stage of the fragment path. */
  lemma StagesWellFormed(cur: Slot, h: Header, payload: seq<byte>, maxPay: nat)
    requires WellFormed(cur, maxPay) && !Rejected(cur, h, maxPay) && |payload| == h.len
    ensures WellFormed(Admit(cur, h), maxPay)
    ensures !Faults(Admit(cur, h), h, maxPay) ==>
      && WellFormed(Place(Admit(cur, h), h, payload), maxPay)
      && WellFormed(Release(Place(Admit(cur, h), h, payload)), maxPay)
  {
  }

  /** Replacing a slot of a well-formed table by a well-formed slot, and moving a slot to the back, keep it well formed. */
  lemma UpdateWellFormed(t: seq<Slot>, cn: nat, s: Slot, maxPay: nat)
    requires TableWellFormed(t, maxPay) && cn < TableSize && WellFormed(s, maxPay)
    ensures TableWellFormed(t[cn := s], maxPay)
    ensures TableWellFormed(ToTail(t[cn := s], cn), maxPay)
  {
    var u := t[cn := s];
    var v := ToTail(u, cn);
    assert v == u[..cn] + u[cn + 1..] + [u[cn]];
    forall i | 0 <= i < TableSize
      ensures WellFormed(v[i], maxPay)
    {
      var ii := if i < cn then i else if i < TableSize - 1 then i + 1 else cn;
      assert v[i] == u[ii];
    }
  }

  lemma ReassembleWellFormed(t: seq<Slot>, h: Header, payload: seq<byte>, maxPay: nat)
    requires TableWellFormed(t, maxPay) && h.fragNum > 1 && |payload| == h.len
    ensures var e := Reassemble(t, h, payload, maxPay);
      IsPermutation(e.order) && TableWellFormed(e.table, maxPay)
  {
    LocateTarget(t, h.id);
    var (order, cn) := Locate(t, h.id);
    var t1 := Arrange(t, order);
    assert TableWellFormed(t1, maxPay);
    var cur := t1[cn];
    if !Rejected(cur, h, maxPay) {
      StagesWellFormed(cur, h, payload, maxPay);
      var cur1 := Admit(cur, h);
      UpdateWellFormed(t1, cn, cur1, maxPay);
      if !Faults(cur1, h, maxPay) {
        var cur2 := Place(cur1, h, payload);
        UpdateWellFormed(t1, cn, cur2, maxPay);
        UpdateWellFormed(t1, cn, Release(cur2), maxPay);
        ToTailPermutation(order, cn);
      }
    }
  }

  /**
   Every packet leaves dtab a permutation of its three slots, each of them
   well formed.
   */
  lemma StepWellFormed(t: seq<Slot>, p: seq<byte>, maxPay: nat, blk: nat)
    requires TableWellFormed(t, maxPay) && IsPowerOfTwo(blk)
    ensures var e := Step(t, p, maxPay, blk);
      IsPermutation(e.order) && TableWellFormed(e.table, maxPay)
  {
    if Fragmented(p, blk) {
      FragmentPath(t, p, maxPay, blk);
      var h := DecodeBytes(p);
      ReassembleWellFormed(t, h, p[HeaderLen..HeaderLen + h.len], maxPay);
    } else {
      OtherPaths(t, p, maxPay, blk);
      ArrangeIdentity(t);
    }
  }

  /** Every packet that does not take the fragment path leaves dtab as it was. */
  lemma OtherPaths(t: seq<Slot>, p: seq<byte>, maxPay: nat, blk: nat)
    requires TableWellFormed(t, maxPay) && IsPowerOfTwo(blk) && !Fragmented(p, blk)
    ensures Step(t, p, maxPay, blk).order == Identity && Step(t, p, maxPay, blk).table == t
  {
  }

  /**
   Where the fragment path leaves the slots (rxtx.go:147-158, 194-195): a
   slot whose Id matches keeps its place unless it completes its datagram,
   and then it moves to the back; on a miss the last slot moves to the
   front, and moves back to the end when it completes a datagram, leaving
   the original order.
   */
  lemma SlotOrder(t: seq<Slot>, p: seq<byte>, maxPay: nat, blk: nat)
    requires TableWellFormed(t, maxPay) && IsPowerOfTwo(blk) && Fragmented(p, blk)
    ensures var e, r := Step(t, p, maxPay, blk), FindSlot(t, DecodeBytes(p).id);
      && (r.Some? && !e.out.Deliver? ==> e.order == Identity)
      && (r.Some? && e.out.Deliver? ==> e.order == ToTail(Identity, r.value))
      && (r.None? && !e.out.Deliver? ==> e.order == TailToHead(Identity))
      && (r.None? && e.out.Deliver? ==> e.order == Identity)
  {
    FragmentPath(t, p, maxPay, blk);
  }

  /**
   rxtx.go:159-165: a fragment is dropped as a bad header exactly when its
   slot is not collecting FragNum fragments and either cannot hold FragNum
   of them, or FragN is not below FragNum, or the slot is still collecting
   another count. The slots keep their contents, but a miss has already
   moved the last slot to the front.
   */
  lemma BadHeaderExactly(t: seq<Slot>, p: seq<byte>, maxPay: nat, blk: nat)
    requires TableWellFormed(t, maxPay) && IsPowerOfTwo(blk) && Fragmented(p, blk)
    ensures var e, h := Step(t, p, maxPay, blk), DecodeBytes(p);
      var cur := Target(t, h.id);
      && (e.out == BadHeader <==>
           cur.len != h.fragNum && (Capacity(maxPay) < h.fragNum || h.fragN >= h.fragNum || cur.len != 0))
      && (e.out == BadHeader ==> e.table == Arrange(t, e.order))
  {
    FragmentPath(t, p, maxPay, blk);
    LocateTarget(t, DecodeBytes(p).id);
  }

  /**
   rxtx.go:171-175: the receiver panics exactly when a fragment it did not
   reject has FragN not below FragNum, which only a slot already collecting
   FragNum fragments lets through, or a Len above maxPay, the capacity of
   the slice it is copied into.
   */
  lemma CrashExactly(t: seq<Slot>, p: seq<byte>, maxPay: nat, blk: nat)
    requires TableWellFormed(t, maxPay) && IsPowerOfTwo(blk) && Fragmented(p, blk)
    ensures var e, h := Step(t, p, maxPay, blk), DecodeBytes(p);
      var cur := Target(t, h.id);
      e.out == Crash <==> !Rejected(cur, h, maxPay) && (h.fragN >= h.fragNum || h.len > maxPay)
    ensures var e, h := Step(t, p, maxPay, blk), DecodeBytes(p);
      e.out == Crash && h.fragN >= h.fragNum ==> Target(t, h.id).len == h.fragNum
  {
    FragmentPath(t, p, maxPay, blk);
    LocateTarget(t, DecodeBytes(p).id);
  }

  /** Where each element of ToTail comes from. */
  function ToTailSource(cn: nat, j: nat): nat
  {
    if j < cn then j else if j < TableSize - 1 then j + 1 else cn
  }

  lemma ToTailAt<T>(s: seq<T>, cn: nat)
    requires |s| == TableSize && cn < TableSize
    ensures |ToTail(s, cn)| == TableSize
    ensures forall j | 0 <= j < TableSize :: ToTail(s, cn)[j] == s[ToTailSource(cn, j)]
  {
  }

  /** Admitting a fragment retags only an empty slot, with the packet's Id; placing and releasing keep the Id. */
  lemma StagesKeepId(cur: Slot, h: Header, payload: seq<byte>, maxPay: nat)
    requires WellFormed(cur, maxPay) && !Rejected(cur, h, maxPay) && |payload| == h.len
    ensures Admit(cur, h).id != cur.id ==> cur.len == 0 && Admit(cur, h).id == h.id
    ensures !Faults(Admit(cur, h), h, maxPay) ==>
      && Place(Admit(cur, h), h, payload).id == Admit(cur, h).id
      && Release(Place(Admit(cur, h), h, payload)).id == Admit(cur, h).id
  {
  }

  lemma ReassembleRetag(t: seq<Slot>, h: Header, payload: seq<byte>, maxPay: nat)
    requires TableWellFormed(t, maxPay) && h.fragNum > 1 && |payload| == h.len
    ensures var e := Reassemble(t, h, payload, maxPay);
      IsPermutation(e.order) && |e.table| == TableSize
    ensures var e := Reassemble(t, h, payload, maxPay);
      forall j | 0 <= j < TableSize :: e.table[j].id != Arrange(t, e.order)[j].id ==>
        Arrange(t, e.order)[j].len == 0 && e.table[j].id == h.id
  {
    ReassembleWellFormed(t, h, payload, maxPay);
    LocateTarget(t, h.id);
    var (order, cn) := Locate(t, h.id);
    var t1 := Arrange(t, order);
    var cur := t1[cn];
    if !Rejected(cur, h, maxPay) {
      StagesKeepId(cur, h, payload, maxPay);
      var cur1 := Admit(cur, h);
      if !Faults(cur1, h, maxPay) {
        var cur2 := Place(cur1, h, payload);
        if Complete(Frags(cur2)) {
          var u := t1[cn := Release(cur2)];
          ArrangeToTail(t, order, cn);
          ToTailAt(u, cn);
          ToTailAt(t1, cn);
        }
      }
    }
  }

  /**
   rxtx.go:166-169: a slot takes a new Id only when it holds no fragments,
   and the Id it takes is the packet's.
   */
  lemma RetagOnlyEmpty(t: seq<Slot>, p: seq<byte>, maxPay: nat, blk: nat)
    requires TableWellFormed(t, maxPay) && IsPowerOfTwo(blk)
    ensures var e := Step(t, p, maxPay, blk);
      IsPermutation(e.order) && |e.table| == TableSize
    ensures var e := Step(t, p, maxPay, blk);
      forall j | 0 <= j < TableSize :: e.table[j].id != Arrange(t, e.order)[j].id ==>
        Arrange(t, e.order)[j].len == 0 && e.table[j].id == DecodeBytes(p).id
  {
    StepWellFormed(t, p, maxPay, blk);
    if Fragmented(p, blk) {
      FragmentPath(t, p, maxPay, blk);
      var h := DecodeBytes(p);
      ReassembleRetag(t, h, p[HeaderLen..HeaderLen + h.len], maxPay);
    } else {
      ArrangeIdentity(t);
    }
  }

  /** Admitting a fragment resizes only an empty slot, to FragNum entries; placing keeps the length and releasing empties it. */
  lemma StagesResize(cur: Slot, h: Header, payload: seq<byte>, maxPay: nat)
    requires WellFormed(cur, maxPay) && !Rejected(cur, h, maxPay) && |payload| == h.len
    ensures Admit(cur, h).len != cur.len ==> cur.len == 0 && Admit(cur, h).len == h.fragNum
    ensures !Faults(Admit(cur, h), h, maxPay) ==>
      && Place(Admit(cur, h), h, payload).len == Admit(cur, h).len
      && Release(Place(Admit(cur, h), h, payload)).len == 0
  {
  }

  lemma ReassembleResize(t: seq<Slot>, h: Header, payload: seq<byte>, maxPay: nat)
    requires TableWellFormed(t, maxPay) && h.fragNum > 1 && |payload| == h.len
    ensures var e := Reassemble(t, h, payload, maxPay);
      IsPermutation(e.order) && |e.table| == TableSize
    ensures var e := Reassemble(t, h, payload, maxPay);
      forall j | 0 <= j < TableSize :: e.table[j].len != Arrange(t, e.order)[j].len ==>
        || (Arrange(t, e.order)[j].len == 0 && e.table[j].len == h.fragNum && !e.out.Deliver?)
        || (e.out.Deliver? && e.table[j].len == 0)
  {
    ReassembleWellFormed(t, h, payload, maxPay);
    LocateTarget(t, h.id);
    var (order, cn) := Locate(t, h.id);
    var t1 := Arrange(t, order);
    var cur := t1[cn];
    if !Rejected(cur, h, maxPay) {
      StagesResize(cur, h, payload, maxPay);
      var cur1 := Admit(cur, h);
      if !Faults(cur1, h, maxPay) {
        var cur2 := Place(cur1, h, payload);
        if Complete(Frags(cur2)) {
          var u := t1[cn := Release(cur2)];
          ArrangeToTail(t, order, cn);
          ToTailAt(u, cn);
          ToTailAt(t1, cn);
        }
      }
    }
  }

  /**
   rxtx.go:166-169: a slot's `Frags` is resized only when it holds no
   fragments, to FragNum entries, on a packet that does not complete a
   datagram; otherwise only a completion changes a length, to zero
   (rxtx.go:193).
   */
  lemma ResizeOnlyEmpty(t: seq<Slot>, p: seq<byte>, maxPay: nat, blk: nat)
    requires TableWellFormed(t, maxPay) && IsPowerOfTwo(blk)
    ensures var e := Step(t, p, maxPay, blk);
      IsPermutation(e.order) && |e.table| == TableSize
    ensures var e := Step(t, p, maxPay, blk);
      forall j | 0 <= j < TableSize :: e.table[j].len != Arrange(t, e.order)[j].len ==>
        || (Arrange(t, e.order)[j].len == 0 && e.table[j].len == DecodeBytes(p).fragNum && !e.out.Deliver?)
        || (e.out.Deliver? && e.table[j].len == 0)
  {
    StepWellFormed(t, p, maxPay, blk);
    if Fragmented(p, blk) {
      FragmentPath(t, p, maxPay, blk);
      var h := DecodeBytes(p);
      ReassembleResize(t, h, p[HeaderLen..HeaderLen + h.len], maxPay);
    } else {
      ArrangeIdentity(t);
    }
  }

  lemma ReassembleOneSlot(t: seq<Slot>, h: Header, payload: seq<byte>, maxPay: nat)
    requires TableWellFormed(t, maxPay) && h.fragNum > 1 && |payload| == h.len
    ensures var e := Reassemble(t, h, payload, maxPay);
      IsPermutation(e.order) && |e.table| == TableSize
    ensures var e := Reassemble(t, h, payload, maxPay);
      forall j, k | 0 <= j < k < TableSize :: e.table[j] == Arrange(t, e.order)[j] || e.table[k] == Arrange(t, e.order)[k]
  {
    ReassembleWellFormed(t, h, payload, maxPay);
    LocateTarget(t, h.id);
    var (order, cn) := Locate(t, h.id);
    var t1 := Arrange(t, order);
    var cur := t1[cn];
    var e := Reassemble(t, h, payload, maxPay);
    if Rejected(cur, h, maxPay) {
      OneDiffers(e.table, t1, cn);
    } else if Faults(Admit(cur, h), h, maxPay) {
      OneDiffers(e.table, t1, cn);
    } else {
      var cur2 := Place(Admit(cur, h), h, payload);
      if Complete(Frags(cur2)) {
        ArrangeToTail(t, order, cn);
        ToTailSameExcept(t1, cn, Release(cur2));
        OneDiffers(e.table, Arrange(t, e.order), TableSize - 1);
      } else {
        OneDiffers(e.table, t1, cn);
      }
    }
  }

  /** a and b agree everywhere but at position i. */
  predicate SameExcept(a: seq<Slot>, b: seq<Slot>, i: nat)
  {
    |a| == |b| && forall j | 0 <= j < |a| && j != i :: a[j] == b[j]
  }

  /** Tables that differ at one position at most have, of any two positions, one that agrees. */
  lemma OneDiffers(a: seq<Slot>, b: seq<Slot>, i: nat)
    requires SameExcept(a, b, i) && |a| == TableSize
    ensures forall j, k | 0 <= j < k < TableSize :: a[j] == b[j] || a[k] == b[k]
  {
  }

  /** Changing position cn and then moving it to the back changes only the last position. */
  lemma ToTailSameExcept(s: seq<Slot>, cn: nat, x: Slot)
    requires |s| == TableSize && cn < TableSize
    ensures SameExcept(ToTail(s[cn := x], cn), ToTail(s, cn), TableSize - 1)
  {
    ToTailAt(s[cn := x], cn);
    ToTailAt(s, cn);
  }

  /** A packet changes the state of at most one slot. */
  lemma OneSlotChanges(t: seq<Slot>, p: seq<byte>, maxPay: nat, blk: nat)
    requires TableWellFormed(t, maxPay) && IsPowerOfTwo(blk)
    ensures var e := Step(t, p, maxPay, blk);
      IsPermutation(e.order) && |e.table| == TableSize
    ensures var e := Step(t, p, maxPay, blk);
      forall j, k | 0 <= j < k < TableSize :: e.table[j] == Arrange(t, e.order)[j] || e.table[k] == Arrange(t, e.order)[k]
  {
    StepWellFormed(t, p, maxPay, blk);
    if Fragmented(p, blk) {
      FragmentPath(t, p, maxPay, blk);
      var h := DecodeBytes(p);
      ReassembleOneSlot(t, h, p[HeaderLen..HeaderLen + h.len], maxPay);
    } else {
      ArrangeIdentity(t);
    }
  }

  /**
   rxtx.go:183-195: the fragment path delivers only when every fragment of
   its slot is present; what it writes is the fragments end to end, cut
   off at the 8192 bytes of buf; the slot is left with no fragments, each
   entry emptied but kept, and moved to the back of dtab.
   */
  lemma Completion(t: seq<Slot>, p: seq<byte>, maxPay: nat, blk: nat)
    requires TableWellFormed(t, maxPay) && IsPowerOfTwo(blk) && Fragmented(p, blk)
    ensures HeaderLen + DecodeBytes(p).len <= |p|
    ensures var e, h := Step(t, p, maxPay, blk), DecodeBytes(p);
      var cur, payload := Target(t, h.id), p[HeaderLen..HeaderLen + h.len];
      e.out.Deliver? ==>
        && !Rejected(cur, h, maxPay) && !Faults(Admit(cur, h), h, maxPay)
        && Admit(cur, h).len == h.fragNum <= |cur.store|
        && var frags := Frags(Place(Admit(cur, h), h, payload));
        && Complete(frags) && |frags| == h.fragNum
        && e.out.data == Prefix(Joined(frags), BufferSize)
        && |e.out.data| == (if |Joined(frags)| <= BufferSize then |Joined(frags)| else BufferSize)
        && |e.table| == TableSize
        && e.table[TableSize - 1] == Release(Place(Admit(cur, h), h, payload))
        && Frags(e.table[TableSize - 1]) == []
  {
    FragmentPath(t, p, maxPay, blk);
    var e, h := Step(t, p, maxPay, blk), DecodeBytes(p);
    var payload := p[HeaderLen..HeaderLen + h.len];
    LocateTarget(t, h.id);
    if e.out.Deliver? {
      var cur := Target(t, h.id);
      var frags := Frags(Place(Admit(cur, h), h, payload));
      GatheredIsPrefix(frags, BufferSize);
    }
  }

  /** No slot holds a fragment: every entry of every backing array is nil. */
  predicate Unfilled(t: seq<Slot>)
  {
    forall i, k | 0 <= i < |t| && 0 <= k < |t[i].store| :: t[i].store[k].None?
  }

  /** dtab as tunWrite allocates it (rxtx.go:124-127). */
  function InitialTable(maxPay: nat): (t: seq<Slot>)
    requires maxPay > 0
    ensures TableWellFormed(t, maxPay) && Unfilled(t)
    ensures forall i | 0 <= i < |t| :: t[i].id == 0 && Frags(t[i]) == []
  {
    [EmptySlot(maxPay), EmptySlot(maxPay), EmptySlot(maxPay)]
  }

  /**
   rxtx.go:171-176 store nothing: the slice a nil entry gets is fresh and
   dropped. So a table with no fragments keeps none, and its fragment path
   never finds a datagram complete, since FragNum > 1 entries are all nil.
   */
  lemma UnfilledUpdate(t: seq<Slot>, cn: nat, s: Slot)
    requires Unfilled(t) && cn < |t| && forall k | 0 <= k < |s.store| :: s.store[k].None?
    ensures Unfilled(t[cn := s])
  {
  }

  lemma ReassembleUnfilled(t: seq<Slot>, h: Header, payload: seq<byte>, maxPay: nat)
    requires TableWellFormed(t, maxPay) && h.fragNum > 1 && |payload| == h.len && Unfilled(t)
    ensures var e := Reassemble(t, h, payload, maxPay);
      Unfilled(e.table) && !e.out.Deliver?
  {
    LocateTarget(t, h.id);
    var (order, cn) := Locate(t, h.id);
    var t1 := Arrange(t, order);
    assert Unfilled(t1) by {
      forall i, k | 0 <= i < |t1| && 0 <= k < |t1[i].store|
        ensures t1[i].store[k].None?
      {
        assert t1[i] == t[order[i]];
      }
    }
    var cur := t1[cn];
    if !Rejected(cur, h, maxPay) {
      var cur1 := Admit(cur, h);
      UnfilledUpdate(t1, cn, cur1);
      if !Faults(cur1, h, maxPay) {
        var cur2 := Place(cur1, h, payload);
        assert Frags(cur2)[0].None?;
        UnfilledUpdate(t1, cn, cur2);
      }
    }
  }

  lemma UnfilledStays(t: seq<Slot>, p: seq<byte>, maxPay: nat, blk: nat)
    requires TableWellFormed(t, maxPay) && IsPowerOfTwo(blk) && Unfilled(t)
    ensures var e := Step(t, p, maxPay, blk);
      Unfilled(e.table) && TableWellFormed(e.table, maxPay)
    ensures Fragmented(p, blk) ==> !Step(t, p, maxPay, blk).out.Deliver?
  {
    StepWellFormed(t, p, maxPay, blk);
    if Fragmented(p, blk) {
      FragmentPath(t, p, maxPay, blk);
      var h := DecodeBytes(p);
      ReassembleUnfilled(t, h, p[HeaderLen..HeaderLen + h.len], maxPay);
    }
  }

  /**
   The outcomes of a run of packets received one after another from table t.
   A Crash outcome is a panic that ends tunWrite, so a real run is a prefix
   of ps ending at its first Crash; Replay goes on past it, and what it
   states of every outcome holds of that prefix too.
   */
  function Replay(t: seq<Slot>, ps: seq<seq<byte>>, maxPay: nat, blk: nat): (outs: seq<Outcome>)
    requires TableWellFormed(t, maxPay) && IsPowerOfTwo(blk)
    ensures |outs| == |ps|
    decreases |ps|
  {
    if ps == [] then []
    else
      StepWellFormed(t, ps[0], maxPay, blk);
      var e := Step(t, ps[0], maxPay, blk);
      [e.out] + Replay(e.table, ps[1..], maxPay, blk)
  }

  /**
   Starting with no fragments stored, as tunWrite does, every datagram
   written to the tun device arrived in one packet with FragNum 0 or 1: no
   fragmented datagram is ever reassembled.
   */
  lemma {:induction false} NothingReassembled(t: seq<Slot>, ps: seq<seq<byte>>, maxPay: nat, blk: nat)
    requires TableWellFormed(t, maxPay) && IsPowerOfTwo(blk) && Unfilled(t)
    ensures forall i | 0 <= i < |ps| :: Replay(t, ps, maxPay, blk)[i].Deliver? ==>
      !Fragmented(ps[i], blk) && Replay(t, ps, maxPay, blk)[i].data == ps[i]
    decreases |ps|
  {
    if ps != [] {
      UnfilledStays(t, ps[0], maxPay, blk);
      SizeChecks(t, ps[0], maxPay, blk);
      var e := Step(t, ps[0], maxPay, blk);
      NothingReassembled(e.table, ps[1..], maxPay, blk);
      var outs := Replay(t, ps, maxPay, blk);
      assert outs[1..] == Replay(e.table, ps[1..], maxPay, blk);
      forall i | 1 <= i < |ps|
        ensures outs[i].Deliver? ==> !Fragmented(ps[i], blk) && outs[i].data == ps[i]
      {
        assert outs[i] == outs[1..][i - 1] && ps[i] == ps[1..][i - 1];
      }
    }
  }

  /**
   rxtx.go:154-170 on a miss: the last slot moves to the front whatever it
   holds. When it is collecting the same number of fragments for another
   datagram, the check of rxtx.go:159 passes it, and the fragment goes into
   that datagram's slot, whose Id stays the other datagram's.
   */
  lemma MissIntoBusySlot(t: seq<Slot>, p: seq<byte>, maxPay: nat, blk: nat)
    requires TableWellFormed(t, maxPay) && IsPowerOfTwo(blk) && Fragmented(p, blk)
    requires var h := DecodeBytes(p);
      FindSlot(t, h.id).None? && t[TableSize - 1].len == h.fragNum && h.fragN < h.fragNum && h.len <= maxPay
    ensures var e := Step(t, p, maxPay, blk);
      && (e.out == Pending || e.out.Deliver?)
      && |e.table| == TableSize
      && t[TableSize - 1].id != DecodeBytes(p).id
      && (e.out == Pending ==> e.table[0].id == t[TableSize - 1].id)
      && (e.out.Deliver? ==> e.table[TableSize - 1].id == t[TableSize - 1].id)
  {
    FragmentPath(t, p, maxPay, blk);
    LocateTarget(t, DecodeBytes(p).id);
    StepWellFormed(t, p, maxPay, blk);
  }
}
