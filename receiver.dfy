/**
 tunWrite (rxtx.go:122-209) as objects: the state its loop keeps from one
 packet to the next (the buffer, the table dtab of `defrag` references and
 the header h that Decode writes into) and the body of the loop for one
 packet, each operation proved against the specification in Reassembly.
 */
module Receiver {
  import opened Wrappers
  import opened Wire
  import opened Align
  import opened Reassembly

  /**
   Go's `copy(a[dst:], a[src:])` within one array: it copies as many elements
   as the shorter slice holds and behaves like a memmove when the two
   ranges overlap.
   */
  method CopyWithin<T>(a: array<T>, dst: nat, src: nat) returns (count: nat)
    requires dst <= a.Length && src <= a.Length
    modifies a
    ensures count == if a.Length - dst <= a.Length - src then a.Length - dst else a.Length - src
    ensures forall j | 0 <= j < a.Length ::
      a[j] == if dst <= j < dst + count then old(a[j - dst + src]) else old(a[j])
  {
    count := if a.Length - dst <= a.Length - src then a.Length - dst else a.Length - src;
    if dst <= src {
      for k := 0 to count
        invariant forall j | 0 <= j < a.Length ::
          a[j] == if dst <= j < dst + k then old(a[j - dst + src]) else old(a[j])
      {
        a[dst + k] := a[src + k];
      }
    } else {
      var k := count;
      while k > 0
        invariant 0 <= k <= count
        invariant forall j | 0 <= j < a.Length ::
          a[j] == if dst + k <= j < dst + count then old(a[j - dst + src]) else old(a[j])
      {
        k := k - 1;
        a[dst + k] := a[src + k];
      }
    }
  }

  /**
   Go's `copy(dst[at:], src)`: as many bytes of src as dst has room for
   after at, the rest of dst untouched.
   */
  method CopyInto(dst: array<byte>, at: nat, src: seq<byte>) returns (count: nat)
    requires at <= dst.Length
    modifies dst
    ensures count == if |src| <= dst.Length - at then |src| else dst.Length - at
    ensures dst[..] == old(dst[..at]) + src[..count] + old(dst[at + count..])
  {
    count := if |src| <= dst.Length - at then |src| else dst.Length - at;
    for k := 0 to count
      invariant forall j | 0 <= j < dst.Length :: dst[j] == if at <= j < at + k then src[j - at] else old(dst[j])
    {
      dst[at + k] := src[k];
    }
  }

  /** The fragments end to end, grown by one more fragment. */
  lemma {:induction false} JoinedSnoc(frags: seq<Frag>, f: Frag)
    ensures Joined(frags + [f]) == Joined(frags) + Bytes(f)
  {
    if frags != [] {
      assert (frags + [f])[1..] == frags[1..] + [f];
      JoinedSnoc(frags[1..], f);
    } else {
      assert [f][1..] == [];
    }
  }

  /** `copy` into a at n leaves a's first n elements and then what it copied. */
  lemma CopiedPrefix<T>(a: seq<T>, b: seq<T>, n: nat, src: seq<T>, c: nat)
    requires n + c <= |a| && c <= |src| && b == a[..n] + src[..c] + a[n + c..]
    ensures b[..n + c] == a[..n] + src[..c]
  {
  }

  /** One copy of the gathering loop: buf then holds the first i + 1 fragments end to end, as far as it has room. */
  lemma GatherStep(frags: seq<Frag>, i: nat, before: seq<byte>, after: seq<byte>, n: nat, c: nat)
    requires i < |frags| && n <= |before| && before[..n] == Prefix(Joined(frags[..i]), |before|)
    requires c == if |Bytes(frags[i])| <= |before| - n then |Bytes(frags[i])| else |before| - n
    requires after == before[..n] + Bytes(frags[i])[..c] + before[n + c..]
    ensures n + c <= |after| && after[..n + c] == Prefix(Joined(frags[..i + 1]), |after|)
  {
    CopiedPrefix(before, after, n, Bytes(frags[i]), c);
    assert frags[..i + 1] == frags[..i] + [frags[i]];
    JoinedSnoc(frags[..i], frags[i]);
    PrefixSnoc(Joined(frags[..i]), Bytes(frags[i]), |before|);
  }

  /** Emptying one more fragment: the entry at i is still the original. */
  lemma EmptiedNext(store: seq<Frag>, i: nat)
    requires i < |store|
    ensures Emptied(store, i)[i] == store[i]
    ensures Emptied(store, i + 1) == Emptied(store, i)[i := Truncated(store[i])]
  {
  }

  /** Emptying the fragments keeps a slot well formed. */
  lemma EmptiedWellFormed(s: Slot, maxPay: nat)
    requires WellFormed(s, maxPay)
    ensures WellFormed(Slot(s.id, Emptied(s.store, s.len), s.len), maxPay)
  {
  }

  /** A slice of p read from an array that starts with p. */
  lemma SliceOfPrefix<T>(a: array<T>, p: seq<T>, lo: nat, hi: nat)
    requires |p| <= a.Length && a[..|p|] == p && lo <= hi <= |p|
    ensures a[lo..hi] == p[lo..hi]
  {
    forall j | lo <= j < hi
      ensures a[j] == p[j]
    {
      assert a[j] == a[..|p|][j];
    }
  }

  /** Cutting a + b at room is cutting a at room and then adding what room b still has. */
  lemma PrefixSnoc(a: seq<byte>, b: seq<byte>, room: nat)
    ensures var pa := Prefix(a, room);
      var c := if |b| <= room - |pa| then |b| else room - |pa|;
      Prefix(a + b, room) == pa + b[..c]
  {
    if |a| > room {
      assert (a + b)[..room] == a[..room];
    } else if |a + b| > room {
      assert (a + b)[..room] == a + b[..room - |a|];
    }
  }

  /**
   The range loop of rxtx.go:177-182: frag ends as the first nil fragment,
   or the last fragment when none is nil, or keeps its value start when
   there are no fragments.
   */
  method ScanFrags(frags: seq<Frag>, start: Frag) returns (last: Frag)
    ensures |frags| > 0 ==> (last.Some? <==> Complete(frags))
    ensures |frags| == 0 ==> last == start
  {
    last := start;
    for i := 0 to |frags|
      invariant i == 0 ==> last == start
      invariant i > 0 ==> last == frags[i - 1]
      invariant forall j | 0 <= j < i :: frags[j].Some?
    {
      last := frags[i];
      if last.None? {
        assert !Complete(frags);
        return;
      }
    }
  }

  /** A `defrag` entry (rxtx.go:117-120): `store` is the backing array of `Frags` and `len` the length of `Frags`. */
  class Defrag {
    var id: uint64
    var store: seq<Frag>
    var len: nat

    /** `&defrag{Frags: make([][]byte, 0, capacity)}` (rxtx.go:126). */
    constructor (capacity: nat)
      ensures id == 0 && store == seq(capacity, _ => None) && len == 0
    {
      id := 0;
      store := seq(capacity, _ => None);
      len := 0;
    }

    function State(): Slot
      reads this
    {
      Slot(id, store, len)
    }
  }

  /** One entry of dtab as tunWrite allocates it (rxtx.go:126). */
  method NewSlot(maxPay: nat) returns (d: Defrag)
    requires maxPay > 0
    ensures fresh(d) && d.State() == EmptySlot(maxPay)
  {
    d := new Defrag((BufferSize + maxPay - 1) / maxPay);
    assert d.store == EmptySlot(maxPay).store;
  }

  /**
   rxtx.go:188-192: the first len fragments of store copied into buf one
   after the other, as far as buf has room; emptied is store with each of
   them cut to length zero.
   */
  method GatherInto(store: seq<Frag>, len: nat, buf: array<byte>) returns (n: nat, emptied: seq<Frag>)
    requires len <= |store|
    modifies buf
    ensures emptied == Emptied(store, len)
    ensures n <= buf.Length && buf[..n] == Prefix(Joined(store[..len]), buf.Length)
  {
    ghost var frags := store[..len];
    emptied := store;
    n := 0;
    for i := 0 to len
      invariant emptied == Emptied(store, i)
      invariant n <= buf.Length && buf[..n] == Prefix(Joined(frags[..i]), buf.Length)
    {
      EmptiedNext(store, i);
      var frag := emptied[i];
      ghost var before := buf[..];
      var c := CopyInto(buf, n, Bytes(frag));  // n += copy(buf[n:], frag)
      GatherStep(frags, i, before, buf[..], n, c);
      n := n + c;
      emptied := emptied[i := Truncated(frag)];  // cur.Frags[i] = frag[:0]
    }
    assert frags[..len] == frags;
  }

  /** The state tunWrite keeps across packets (rxtx.go:123-128). */
  class TunWriter {
    const maxPay: nat
    const blk: nat
    const buf: array<byte>
    const dtab: array<Defrag>
    var hdr: Header
    ghost const slots: set<Defrag>

    ghost predicate Valid()
      reads dtab, slots
    {
      && maxPay > 0 && IsPowerOfTwo(blk)
      && buf.Length == BufferSize && dtab.Length == TableSize
      && slots == {dtab[0], dtab[1], dtab[2]}
      && dtab[0] != dtab[1] && dtab[0] != dtab[2] && dtab[1] != dtab[2]
      && WellFormed(dtab[0].State(), maxPay)
      && WellFormed(dtab[1].State(), maxPay)
      && WellFormed(dtab[2].State(), maxPay)
    }

    /** The states of the slots in dtab's order. */
    ghost function Table(): (t: seq<Slot>)
      reads dtab, slots
      requires Valid()
      ensures TableWellFormed(t, maxPay)
    {
      [dtab[0].State(), dtab[1].State(), dtab[2].State()]
    }

    /** rxtx.go:123-128. */
    constructor (maxPay: nat, blk: nat)
      requires maxPay > 0 && IsPowerOfTwo(blk)
      ensures Valid() && Table() == InitialTable(maxPay)
      ensures this.maxPay == maxPay && this.blk == blk
      ensures fresh(buf) && fresh(dtab)
    {
      this.maxPay := maxPay;
      this.blk := blk;
      buf := new byte[BufferSize];
      var d0 := NewSlot(maxPay);
      var d1 := NewSlot(maxPay);
      var d2 := NewSlot(maxPay);
      dtab := new Defrag[TableSize] [d0, d1, d2];
      slots := {d0, d1, d2};
      hdr := Header(0, 0, 0, 0);
    }

    /** The loop of rxtx.go:147-153: the first slot with the packet's Id. */
    method Lookup(id: uint64) returns (cn: nat, found: bool)
      requires Valid()
      ensures found <==> FindSlot(Table(), id).Some?
      ensures found ==> cn == FindSlot(Table(), id).value
      ensures !found ==> cn == 0
    {
      var i := 0;
      while i < TableSize
        invariant 0 <= i <= TableSize
        invariant forall j | 0 <= j < i :: Table()[j].id != id
      {
        if dtab[i].id == id {
          assert Table()[i].id == id;
          return i, true;
        }
        i := i + 1;
      }
      return 0, false;
    }

    /**
     rxtx.go:143-158: the slot the fragment goes to. A slot with the
     packet's Id stays where it is; otherwise the last slot is moved to the
     front and taken.
     */
    method Select(id: uint64) returns (cur: Defrag, cn: nat)
      requires Valid()
      modifies dtab
      ensures Valid() && cn < TableSize && cur == dtab[cn]
      ensures var (order, k) := Locate(old(Table()), id);
        cn == k && IsPermutation(order) && dtab[..] == Arrange(old(dtab[..]), order) && Table() == Arrange(old(Table()), order)
    {
      ghost var t, d := Table(), dtab[..];
      LocateTarget(t, id);
      var found;
      cn, found := Lookup(id);
      if found {
        cur := dtab[cn];
        ArrangeIdentity(t);
        ArrangeIdentity(d);
      } else {
        cur := dtab[TableSize - 1];
        MoveToHead();
        ArrangeTailToHead(t);
        ArrangeTailToHead(d);
      }
    }

    /** rxtx.go:155-157: `copy(dtab[1:], dtab); dtab[0] = cur` with cur the last slot. */
    method MoveToHead()
      requires Valid()
      modifies dtab
      ensures Valid()
      ensures dtab[..] == TailToHead(old(dtab[..]))
      ensures Table() == TailToHead(old(Table()))
    {
      var cur := dtab[TableSize - 1];
      var _ := CopyWithin(dtab, 1, 0);  // copy(dtab[1:], dtab)
      dtab[0] := cur;
      assert dtab[..] == TailToHead(old(dtab[..]));
    }

    /**
     The header checks of rxtx.go:159-169 on slot cur, at position cn: the
     fragment is refused, or the slot is (or becomes) the one collecting
     FragNum fragments of the packet's datagram.
     */
    method Admission(cur: Defrag, cn: nat, h: Header) returns (ok: bool)
      requires Valid() && cn < TableSize && cur == dtab[cn]
      modifies cur
      ensures Valid()
      ensures ok <==> !Rejected(old(cur.State()), h, maxPay)
      ensures cur.State() == if ok then Admit(old(cur.State()), h) else old(cur.State())
      ensures Table() == old(Table())[cn := cur.State()]
    {
      if cur.len != h.fragNum {
        if |cur.store| < h.fragNum || h.fragN >= h.fragNum || (cur.len != 0 && cur.len != h.fragNum) {
          return false;  // Bad header
        }
        if cur.len == 0 {
          cur.id := h.id;
          cur.len := h.fragNum;  // cur.Frags = cur.Frags[:h.FragNum]
        }
      }
      return true;
    }

    /**
     rxtx.go:171-176 on slot cur, at position cn: the fragment's bytes are
     copied into the entry for FragN, which keeps them only when it is not
     nil and so shares its backing array.
     */
    method Put(cur: Defrag, cn: nat, h: Header)
      requires Valid() && cn < TableSize && cur == dtab[cn]
      requires !Faults(cur.State(), h, maxPay) && HeaderLen + h.len <= buf.Length
      modifies cur
      ensures Valid()
      ensures cur.State() == Place(old(cur.State()), h, buf[HeaderLen..HeaderLen + h.len])
      ensures Table() == old(Table())[cn := cur.State()]
    {
      ghost var placed := Place(cur.State(), h, buf[HeaderLen..HeaderLen + h.len]);
      var frag := cur.store[h.fragN];
      if frag.Some? {
        cur.store := cur.store[h.fragN := Fill(frag, buf[HeaderLen..HeaderLen + h.len])];
      } else {
        assert placed.store == cur.store;  // a nil entry gets a fresh slice that is dropped
      }
      assert cur.State() == placed;
    }

    /** rxtx.go:194-195: the slot at position cn moves to the end of dtab, the slots after it one place forward. */
    method MoveToTail(cn: nat)
      requires Valid() && cn < TableSize
      modifies dtab
      ensures Valid()
      ensures dtab[..] == ToTail(old(dtab[..]), cn)
      ensures Table() == ToTail(old(Table()), cn)
    {
      var cur := dtab[cn];
      var _ := CopyWithin(dtab, cn, cn + 1);  // copy(dtab[cn:], dtab[cn+1:])
      dtab[TableSize - 1] := cur;
      ToTailAt(old(dtab[..]), cn);
      ToTailAt(old(Table()), cn);
      assert dtab[..] == ToTail(old(dtab[..]), cn);
    }

    /**
     rxtx.go:187-195 once every fragment of slot cur, at position cn, is
     present: the fragments are copied into buf end to end, each is emptied,
     `Frags` goes back to length zero and the slot moves to the end of dtab.
     */
    method Flush(cur: Defrag, cn: nat) returns (n: nat)
      requires Valid() && cn < TableSize && cur == dtab[cn]
      modifies buf, cur, dtab
      ensures Valid()
      ensures dtab[..] == ToTail(old(dtab[..]), cn)
      ensures Table() == ToTail(old(Table())[cn := Release(old(cur.State()))], cn)
      ensures n <= buf.Length && buf[..n] == Gathered(old(Frags(cur.State())), BufferSize)
    {
      ghost var frags := Frags(cur.State());
      var emptied;
      n, emptied := GatherInto(cur.store, cur.len, buf);
      GatheredIsPrefix(frags, BufferSize);
      Reset(cur, cn, emptied);
      MoveToTail(cn);
    }

    /** `cur.Frags = cur.Frags[:0]` (rxtx.go:193) once every fragment of slot cur, at position cn, is emptied. */
    method Reset(cur: Defrag, cn: nat, emptied: seq<Frag>)
      requires Valid() && cn < TableSize && cur == dtab[cn]
      requires cur.len <= |cur.store| && emptied == Emptied(cur.store, cur.len)
      modifies cur
      ensures Valid() && cur.State() == Release(old(cur.State()))
      ensures Table() == old(Table())[cn := cur.State()]
    {
      EmptiedWellFormed(cur.State(), maxPay);
      cur.store, cur.len := emptied, 0;
    }

    /**
     rxtx.go:171-195 on slot cur, at position cn, once the fragment is
     admitted and in range: the fragment is placed, and when every fragment
     is present the datagram is gathered and the slot released and moved to
     the end of dtab.
     */
    method Settle(cur: Defrag, cn: nat, h: Header) returns (out: Outcome)
      requires Valid() && cn < TableSize && cur == dtab[cn]
      requires !Faults(cur.State(), h, maxPay) && HeaderLen + h.len <= buf.Length
      modifies buf, cur, dtab
      ensures Valid()
      ensures var placed := Place(old(cur.State()), h, old(buf[HeaderLen..HeaderLen + h.len]));
        if Complete(Frags(placed)) then
          && out == Deliver(Gathered(Frags(placed), BufferSize))
          && Table() == ToTail(old(Table())[cn := Release(placed)], cn)
          && dtab[..] == ToTail(old(dtab[..]), cn)
        else
          out == Pending && Table() == old(Table())[cn := placed] && dtab[..] == old(dtab[..])
    {
      Put(cur, cn, h);
      var last := ScanFrags(cur.store[..cur.len], Some(buf[HeaderLen..HeaderLen + h.len]));  // frag after the copy
      if last.None? {
        return Pending;  // lack of some fragment
      }
      var n := Flush(cur, cn);
      out := Deliver(buf[..n]);
    }

    /**
     rxtx.go:159-195 once slot cur, at position cn, is chosen for header h,
     the fragment being the Len bytes after the header in buf.
     */
    method Handle(cur: Defrag, cn: nat, h: Header) returns (out: Outcome)
      requires Valid() && cn < TableSize && cur == dtab[cn]
      requires h.fragNum > 1 && HeaderLen + h.len <= buf.Length
      modifies buf, cur, dtab
      ensures Valid()
      ensures var c := Collect(old(Table()), cn, h, old(buf[HeaderLen..HeaderLen + h.len]), maxPay);
        && out == c.out && Table() == c.table
        && dtab[..] == if c.moved then ToTail(old(dtab[..]), cn) else old(dtab[..])
    {
      ghost var t, payload := Table(), buf[HeaderLen..HeaderLen + h.len];
      ghost var c := Collect(t, cn, h, payload, maxPay);
      var ok := Admission(cur, cn, h);
      if !ok {
        assert c == Handled(BadHeader, false, t);
        return BadHeader;
      }
      ghost var admitted := cur.State();
      assert admitted == Admit(t[cn], h);
      if h.fragN >= cur.len {
        assert c == Handled(Crash, false, t[cn := admitted]);
        return Crash;  // cur.Frags[h.FragN]: index out of range
      }
      if h.len > maxPay {
        assert c == Handled(Crash, false, t[cn := admitted]);
        return Crash;  // frag[:h.Len]: slice bounds out of range
      }
      out := Settle(cur, cn, h);
    }

    /**
     The fragment path of rxtx.go:142-196 for header h, the fragment being
     the Len bytes after the header in buf.
     */
    method Defragment(h: Header) returns (out: Outcome)
      requires Valid() && h.fragNum > 1 && HeaderLen + h.len <= buf.Length
      modifies buf, dtab, slots
      ensures Valid()
      ensures var e := Reassemble(old(Table()), h, old(buf[HeaderLen..HeaderLen + h.len]), maxPay);
        out == e.out && IsPermutation(e.order) && dtab[..] == Arrange(old(dtab[..]), e.order) && Table() == e.table
    {
      ghost var t := Table();
      ReassembleWellFormed(t, h, buf[HeaderLen..HeaderLen + h.len], maxPay);
      LocateTarget(t, h.id);
      var cur, cn := Select(h.id);
      out := Handle(cur, cn, h);
      ArrangeToTail(old(dtab[..]), Locate(t, h.id).0, cn);
    }

    /** `con.Read(buf)` (rxtx.go:131) delivering packet p: p lands at the front of buf. */
    method Load(p: seq<byte>)
      requires |p| <= buf.Length
      modifies buf
      ensures buf[..|p|] == p
    {
      for i := 0 to |p|
        invariant buf[..i] == p[..i]
      {
        buf[i] := p[i];
      }
    }

    /**
     rxtx.go:142-196 for a packet p of the size its header announces, with
     FragNum > 1, that `con.Read` has put at the front of buf and whose
     header has been decoded into hdr.
     */
    method TakeFragment(p: seq<byte>) returns (out: Outcome)
      requires Valid() && Fragmented(p, blk) && |p| <= buf.Length && buf[..|p|] == p
      requires hdr == DecodeBytes(p)
      modifies buf, dtab, slots
      ensures Valid()
      ensures var e := Step(old(Table()), p, maxPay, blk);
        out == e.out && IsPermutation(e.order) && dtab[..] == Arrange(old(dtab[..]), e.order) && Table() == e.table
    {
      ghost var t := Table();
      FragmentPath(t, p, maxPay, blk);
      SliceOfPrefix(buf, p, HeaderLen, HeaderLen + hdr.len);
      ghost var e := Reassemble(t, hdr, buf[HeaderLen..HeaderLen + hdr.len], maxPay);
      out := Defragment(hdr);
      assert out == e.out && IsPermutation(e.order) && dtab[..] == Arrange(old(dtab[..]), e.order) && Table() == e.table;
    }

    /**
     rxtx.go:136-196 for a packet p of at least headerLen + 20 bytes that
     `con.Read` has put at the front of buf.
     */
    method Dispatch(p: seq<byte>) returns (out: Outcome)
      requires Valid() && MinPacket <= |p| <= buf.Length && buf[..|p|] == p
      modifies this, buf, dtab, slots
      ensures Valid()
      ensures var e := Step(old(Table()), p, maxPay, blk);
        out == e.out && IsPermutation(e.order) && dtab[..] == Arrange(old(dtab[..]), e.order) && Table() == e.table
    {
      ghost var t := Table();
      ArrangeIdentity(dtab[..]);
      hdr := Decode(buf, hdr);
      assert buf[..HeaderLen] == p[..HeaderLen];
      DecodeHeaderOnly(p);
      var pktLen := AlignUp(HeaderLen + hdr.len, blk);
      if |p| != pktLen {
        assert Step(t, p, maxPay, blk) == Effect(BadSize(pktLen), Identity, t);
        return BadSize(pktLen);  // Bad packet size
      }
      if hdr.fragNum > 1 {
        out := TakeFragment(p);
      } else {
        assert Step(t, p, maxPay, blk) == Effect(Deliver(p), Identity, t);
        out := Deliver(buf[..|p|]);
      }
    }

    /** The body of tunWrite's loop for one packet p read from the transport (rxtx.go:130-208). */
    method Receive(p: seq<byte>) returns (out: Outcome)
      requires Valid() && |p| <= buf.Length
      modifies this, buf, dtab, slots
      ensures Valid()
      ensures var e := Step(old(Table()), p, maxPay, blk);
        out == e.out && IsPermutation(e.order) && dtab[..] == Arrange(old(dtab[..]), e.order) && Table() == e.table
    {
      ghost var t := Table();
      ArrangeIdentity(dtab[..]);
      Load(p);
      if |p| >= MinPacket {
        out := Dispatch(p);
      } else if |p| > 0 {
        out := TooShort;  // Received packet is to short
      } else {
        out := NoData;
      }
    }
  }
}
