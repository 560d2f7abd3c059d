# Packet layer of a point-to-point tunnel, in Dafny

This project models `rxtx.go`, the data plane of a small tunnel. It covers
the two directional loops without their I/O:

- **Header codec** (`Wire`): the 12-byte wire header. It holds a
  little-endian 64-bit datagram `Id`, the fragment index `FragN`, the
  fragment count `FragNum` and a little-endian 16-bit payload length `Len`.
  `header.Encode` and `header.Decode` are methods with the source's byte
  loops. The shift-accumulate in `Decode` is modelled with explicit 64-bit
  wrap-around. Both methods are proved against the functions `EncodeBytes`
  and `DecodeBytes`, which are shown to be inverses.
- **Block alignment** (`Align`): `blkAlignUp`, with `blkMask = B - 1` for a
  power-of-two block size `B`. It is written as `((n + B - 1) / B) * B`.
  The result is proved to be the least multiple of `B` that is at least `n`.
  It is also idempotent and monotonic.
- **Fragmenter** (`Fragmenter`): what `tunRead` does with one datagram read
  from the interface. `Fragment` copies the datagram into the 8192-byte
  buffer after a 12-byte gap. `SendFragments` then runs the source's loop.
  Each header is encoded over the bytes just before its fragment's payload.
  The window `buf` slides forward by `payLen`. Each packet is copied into
  `pkt`. After the loop `Id` is incremented, wrapping at 2^64. The loop is
  proved equal to the function `Fragments`. Lemmas about `Fragments` give the
  fragment geometry, the header of every packet, its wire length, and the
  fact that the payloads laid end to end are the datagram.
- **Reassembly** (`Reassembly`, `Receiver`): what `tunWrite` does with one
  packet read from the transport. `Reassembly.Step` is a function of the
  three-slot table `dtab`. It returns the outcome, how the slots in `dtab` are
  reordered, and the new slot states. `Receiver.TunWriter` is a class with
  the receive buffer, the array `dtab` of `Defrag` objects and the reused
  header. Its `Receive` method runs the source's steps: size checks, decode,
  the fast path, the lookup loop, rotation with `copy`, header checks,
  placing the fragment, the completeness scan, the gathering copy, and the
  move to the tail. `Receive` is proved to do exactly what `Step` says. The
  lemmas about `Step` state the source's behaviour.

A `Frags` slice is modelled as its backing array (`store`, one optional byte
string per entry; `None` is a nil slice) plus its length (`len`). This shows
what the source does when it reslices `cur.Frags[:h.FragNum]` and
`cur.Frags[:0]`: the entries beyond the length survive.

The model follows the code where it differs from what a working tunnel
would do:

- The fragment buffer built at rxtx.go:171-176 is never stored back into the
  slot. A nil entry stays nil, so a table that starts as `tunWrite` allocates
  it never completes a fragmented datagram (`NothingReassembled`). A working
  reassembler would store the payload at index `FragN`.
- A hit does not move the slot (rxtx.go:147-153). A most-recently-used table
  would promote the slot to the head.
- A miss moves the tail slot to the head without clearing it
  (rxtx.go:154-170). If that slot is collecting the same `FragNum`, the
  fragment goes into it and its `Id` stays the other datagram's
  (`MissIntoBusySlot`). A working table would reinitialise the evicted
  slot.
- The fast path writes `buf[:n]`, which still holds the header and the
  padding (rxtx.go:197). A working receiver would write only the payload.
- Completion stores zero-length non-nil slices back into the entries
  (rxtx.go:191).
- Padding bytes are whatever `pkt` held before, where a careful sender would
  zero them. The model records packet lengths and leaves the padding
  contents out.
- `cur.Frags[h.FragN]` with `FragN >= FragNum`, on a slot that is already
  collecting `FragNum` fragments, is an index out of range. `frag[:h.Len]`
  with `Len > MaxPay` is out of the slice's capacity. Both panic in Go. The
  model returns the outcome `Crash` for both.

## Model

| member | source | states |
|---|---|---|
| Wire.Encode | rxtx.go:36-46 | Writes exactly `EncodeBytes(h)` into the 12 bytes at the offset, and no other byte of the buffer changes |
| Wire.EncodeId | rxtx.go:37-41 | The Id loop writes the little-endian bytes of `Id` into the first 8 bytes and touches no other byte |
| Wire.Decode | rxtx.go:48-56 | Returns `DecodeBytes` of the first 12 bytes, whatever the prior `Id` of the reused header was: eight 8-bit shifts with 64-bit wrap-around push it out |
| Wire.WidenValue | rxtx.go:48-52 | Shifting in the bytes of s over a starting value v gives `v * 256^|s|` plus the little-endian value of s, so the starting value ends up above the bytes |
| Wire.ShiftInByte | rxtx.go:50-51 | One step of the loop, a left shift by 8 and then or-ing in byte b, on a uint64 agrees, modulo 2^64, with the same step on the unbounded value and stays below 2^64 |
| Wire.DecodeEncode | rxtx.go:36-56 | Decoding an encoded header returns the same `Id`, `FragN`, `FragNum` and `Len` |
| Wire.EncodeDecode | rxtx.go:36-56 | Every 12-byte string is the encoding of the header decoded from it |
| Wire.DecodeEncodedPrefix | rxtx.go:48-56 | Bytes after an encoded header do not change what is decoded |
| Wire.DecodeHeaderOnly | rxtx.go:48-56 | Decoding depends only on the first 12 bytes |
| Wire.FromLittleEndianInverse | rxtx.go:37-41 | Reading back the k little-endian bytes written for a value below 256^k gives the value |
| Align.AlignUpSpec | rxtx.go:58-60 | `blkAlignUp(n)` is a multiple of B and `n <= blkAlignUp(n) < n + B` |
| Align.AlignUpIsLeast | rxtx.go:58-60 | `blkAlignUp(n)` is the least multiple of B that is at least n |
| Align.AlignUpIdempotent | rxtx.go:58-60 | Aligning an aligned length leaves it unchanged |
| Align.AlignUpMonotonic | rxtx.go:58-60 | Aligning preserves the order of lengths |
| Fragmenter.Geometry | rxtx.go:79-82 | `FragNum = ceil(n/MaxPay)` satisfies `(FragNum-1)*MaxPay < n <= FragNum*MaxPay`; `payLen = ceil(n/FragNum)` lies in `1..MaxPay`, is at most n, and `FragNum` shares of it cover n with the last one non-empty |
| Fragmenter.FragmentSlice | rxtx.go:88-93 | Fragment k is a non-empty slice of at most `payLen` bytes inside the datagram; every fragment but the last has exactly `payLen` bytes and the last one ends the datagram |
| Fragmenter.SplitLength | rxtx.go:88 | The loop sends one packet for each `FragN` from k to `FragNum - 1` |
| Fragmenter.EncodeAndCopy | rxtx.go:97-99 | Returns the encoded header followed by the `Len` payload bytes after it, and `pkt` begins with exactly those `usedLen` bytes; the payload bytes still to be sent are untouched |
| Fragmenter.CopyOut | rxtx.go:99 | `copy(pkt, buf[:usedLen])`: `pkt` begins with the `usedLen` bytes of the window |
| Fragmenter.Shrink | rxtx.go:89-93 | When fewer than `usedLen` bytes remain, `payLen` becomes what remains; either way it is the next fragment's share, `usedLen` is `12 + payLen` and `pktLen` is `blkAlignUp(usedLen)` |
| Fragmenter.SendNext | rxtx.go:89-105 | One turn of the loop sends exactly the packet `Split` prescribes for the bytes still to send, `pkt[:pktLen]` is in bounds and begins with that packet's header and payload, and the window slides past the payload so the remaining bytes are untouched |
| Fragmenter.SendFragments | rxtx.go:83-106 | The packets the sliding-window loop sends are `Split` of the datagram: same Id, FragN counting up from 0, each header encoded in front of its payload |
| Fragmenter.ReadDatagram | rxtx.go:72-73 | The datagram read lands in the 8192-byte buffer after the 12-byte gap for the header |
| Fragmenter.Fragment | rxtx.go:72-107 | An empty read sends nothing and keeps `Id`; otherwise sends `Fragments(d, MaxPay, B, Id)` and returns `Id + 1` modulo 2^64 |
| Fragmenter.FragmentsAt | rxtx.go:86-106 | Packet j is the header `(Id, j, FragNum, len)` followed by the `len` bytes of the datagram starting at `j * payLen`, with wire length `blkAlignUp(12 + len)`; there are `FragNum` packets |
| Fragmenter.FragmentWellFormed | rxtx.go:70-101 | Every packet decodes to the datagram's Id, its own index below `FragNum`, and `Len` equal to its payload length with `0 < Len <= payLen <= MaxPay`; only the last can be shorter than `payLen`; its wire length is a block multiple with less than a block of padding, and fits `pkt` (`12 + MaxPay + 2B`) |
| Fragmenter.PacketFraming | rxtx.go:94-101 | A packet built from an encoded header and its `Len` payload bytes decodes to that header and payload, and its wire length has less than one block of padding |
| Fragmenter.FragmentsCoverDatagram | rxtx.go:86-106 | The payloads of the packets, end to end in `FragN` order, are the datagram: their lengths sum to n and the slices are consecutive and do not overlap |
| Fragmenter.SingleFragment | rxtx.go:79-101 | A datagram of at most `MaxPay` bytes goes out as one packet with `FragN = 0`, `FragNum = 1` and the whole datagram as payload |
| Reassembly.EmptySlot | rxtx.go:125-127 | A slot as allocated has Id 0, an empty `Frags`, capacity `ceil(8192/MaxPay)` and only nil entries |
| Reassembly.InitialTable | rxtx.go:123-127 | The allocated `dtab` has three well-formed slots with Id 0, no fragments and only nil entries |
| Reassembly.FindSlot | rxtx.go:147-153 | Returns the first slot whose Id matches, or none when no slot matches |
| Reassembly.LocateTarget | rxtx.go:143-158 | A hit keeps the order and a miss rotates the tail slot to the head; either way the order is a permutation of the three slots and the chosen position holds the target slot |
| Reassembly.Fill | rxtx.go:171-176 | A nil entry stays nil; a non-nil entry keeps its length, and the payload overwrites the bytes it shows |
| Reassembly.GatheredIsPrefix | rxtx.go:187-192 | The copies into `buf` lay the fragments end to end, cut off where the 8192-byte buffer ends |
| Reassembly.SizeChecks | rxtx.go:133-141 | An empty read does nothing; `0 < n < 32` is too short; `n != blkAlignUp(12 + Len)` has a bad size; none of these touches `dtab`; a well-sized packet with `FragNum <= 1` is written whole, header and padding included |
| Reassembly.FragmentPath | rxtx.go:142-196 | A well-sized packet with `FragNum > 1` takes the fragment path on its header and the `Len` bytes after the header |
| Reassembly.StepWellFormed | rxtx.go:142-196 | Every packet leaves `dtab` a permutation of the same three slots, each well formed |
| Reassembly.SlotOrder | rxtx.go:147-195 | A hit leaves the order unchanged unless the datagram completes, and then the slot moves to the last index; a miss moves the tail to index 0 and the others down one, and a completion moves it back |
| Reassembly.BadHeaderExactly | rxtx.go:159-165 | A fragment is rejected exactly when its slot's length differs from `FragNum` and `FragNum` exceeds the capacity, or `FragN >= FragNum`, or the slot is non-empty; rejection keeps the rotation and leaves every slot's contents unchanged |
| Reassembly.CrashExactly | rxtx.go:171-175 | An admitted fragment panics exactly when `FragN >= FragNum` or `Len > MaxPay`; the first case needs a slot that is already collecting `FragNum` fragments |
| Reassembly.RetagOnlyEmpty | rxtx.go:166-169 | A slot's Id changes only if the slot had no fragments, and the new Id is the packet's |
| Reassembly.ResizeOnlyEmpty | rxtx.go:166-169 | A slot's length changes only in two ways: an empty slot is resized to the packet's `FragNum` on a packet that delivers nothing, or a completed slot is resliced to length zero (rxtx.go:193) |
| Reassembly.OneSlotChanges | rxtx.go:142-196 | A packet changes the state of at most one slot |
| Reassembly.Completion | rxtx.go:177-195 | The fragment path delivers only when all `FragNum` entries are non-nil; it writes their concatenation, cut at 8192 bytes, so the length is the sum of the entry lengths; the slot ends at the last index with an empty `Frags` and its entries emptied |
| Reassembly.UnfilledStays | rxtx.go:171-176 | If no slot holds a non-nil entry, none does after the packet, and a fragmented packet is never delivered |
| Reassembly.NothingReassembled | rxtx.go:122-209 | From the allocated table, every datagram that any run of packets writes to the interface is a whole fast-path packet: no fragmented datagram is ever reassembled |
| Reassembly.MissIntoBusySlot | rxtx.go:154-170 | On a miss, a tail slot that is collecting the same `FragNum` for another Id takes the fragment and keeps that other Id |
| Receiver.CopyWithin | rxtx.go:156 | Go's overlapping `copy` within one array: the shorter length is copied, and the result is as if copied through a temporary |
| Receiver.CopyInto | rxtx.go:190 | `copy(buf[n:], frag)` copies as many bytes as fit and leaves the rest of the buffer alone |
| Receiver.ScanFrags | rxtx.go:177-186 | On a non-empty `Frags`, the range loop ends on a non-nil value exactly when every entry is non-nil |
| Receiver.NewSlot | rxtx.go:126 | A fresh `defrag` whose state is `EmptySlot` |
| Receiver.TunWriter.constructor | rxtx.go:123-128 | The receiver starts with a valid table equal to `InitialTable` |
| Receiver.TunWriter.Lookup | rxtx.go:147-153 | The loop finds the slot that `FindSlot` names, or reports a miss with `cn = 0` |
| Receiver.TunWriter.MoveToHead | rxtx.go:155-157 | On a miss, the last slot moves to index 0 and the others move down one place, both in `dtab` and in the slot states |
| Receiver.TunWriter.Select | rxtx.go:143-158 | Reorders `dtab` as `Locate` says and returns the chosen slot and its position |
| Receiver.TunWriter.Admission | rxtx.go:159-170 | Accepts exactly when `Rejected` does not hold; an accepted empty slot takes the Id and `FragNum` entries; a rejected slot is unchanged |
| Receiver.TunWriter.Put | rxtx.go:171-176 | The slot becomes `Place` of the payload: nothing is stored for a nil entry |
| Receiver.GatherInto | rxtx.go:188-192 | Copies the first `len` fragments end to end into `buf`, cut at its length, returns how many bytes were copied, and empties each of those entries |
| Receiver.TunWriter.Reset | rxtx.go:193 | After the gathering loop, the slot takes the emptied entries with length zero, which is `Release`, and no other slot changes |
| Receiver.TunWriter.MoveToTail | rxtx.go:194-195 | The slot at `cn` moves to the last index and the ones after it move one place forward |
| Receiver.TunWriter.Flush | rxtx.go:187-195 | Writes the gathered fragments, releases the slot and moves it to the tail |
| Receiver.TunWriter.Settle | rxtx.go:171-195 | Places the fragment; if the slot is complete, delivers the gathered datagram and moves the slot to the tail, otherwise reports pending |
| Receiver.TunWriter.Handle | rxtx.go:159-195 | Rejection, panic, pending or delivery as `Collect` says, on the chosen slot |
| Receiver.TunWriter.Defragment | rxtx.go:142-196 | The fragment path as `Reassemble` says: outcome, slot order and slot states |
| Receiver.TunWriter.Load | rxtx.go:130-131 | The packet read lands at the front of `buf` |
| Receiver.TunWriter.TakeFragment | rxtx.go:142-196 | A well-sized packet with `FragNum > 1` is handled as `Step` says: outcome, slot order and slot states |
| Receiver.TunWriter.Dispatch | rxtx.go:136-196 | A packet of at least 32 bytes: a bad size as `Step` says, the fast path writing the whole packet, or the fragment path as `Reassemble` says |
| Receiver.TunWriter.Receive | rxtx.go:130-208 | One packet handled exactly as `Step` says: the outcome, `dtab` rearranged by `Step`'s order and the slots' new states |

## Left out

- Error classification (`checkNetErr`, `checkErr`, the `*net.OpError`,
  `*os.PathError`, `ECONNREFUSED` and `EINVAL` inspection,
  rxtx.go:12-25,102-104,198-204) is runtime error plumbing around I/O. The
  model assumes every transport write succeeds, so a refused write never
  stops the fragment loop early.
- `tun.Read`, `con.Write`, `con.Read` and `tun.Write` are left out. A
  datagram or packet is a parameter, the sent packets are a returned
  sequence, and the interface write is the `Deliver` outcome.
- The initial `Id` is drawn from `crypto/rand` (rxtx.go:64-69). The model
  takes it as a parameter.
- The "Encrypt here" and "Decrypt here" points (rxtx.go:99,134) have no code,
  so no cipher is modelled.
- The padding bytes of a sent packet are leftovers from earlier packets
  because `pkt` is reused without zeroing. `Fragmenter.Packet` records the
  header, the payload and `pktLen`, not the padding contents.
- `log.Printf` diagnostics and the commented-out `getMTU`
  (rxtx.go:96,111-115) are left out.
- `config`, `blkCipher` and `blkMask` are not part of this model. `MaxPay`
  and the block size `B` are parameters, with `MaxPay > 0` and `B` a power
  of two.
- Fragmenter.Fragment: requires `ceil(n/MaxPay) < 256` and
  `12 + n <= 8192`. In the source the first is a configuration invariant,
  and `byte(...)` would truncate a larger count. The second is the most that
  `tun.Read(buf[headerLen:])` can return.
- Reassembly.Fill, Reassembly.Faults, Reassembly.WellFormed: the capacity of
  a non-nil entry is taken to be `MaxPay`. `Faults` uses it for the
  `frag[:h.Len]` panic, and `WellFormed` bounds every entry's length by it.
  Bytes past an entry's length but within its capacity are not tracked. Non-nil
  entries arise only at rxtx.go:191, and only after a completion, which
  `NothingReassembled` shows never happens from the allocated table.
