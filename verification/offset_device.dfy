/**
 * `OffsetScsiDevice`: a single-slot write-back block cache presenting byte-stream
 * read / write / seek / flush over a device that only moves whole blocks. Positions
 * (`currIndex`, `bufferedBlockOffset`) are relative to the partition start; `baseOffset`
 * is added only when the device is addressed.
 */
module OffsetDevice {
  import opened Bytes
  import opened Wrappers
  import opened VecBuffer
  import opened BlockDevice
  import opened Alignment

  /** The adapter's fields, with the device it owns. */
  datatype Adapter = Adapter(
    device: Device,
    blockBuffer: VecBuf,
    bufferedBlockOffset: nat,
    baseOffset: nat,
    currIndex: nat,
    needsFlush: bool)

  /**
   * The panics an operation can hit: a slice of the block buffer out of range, a `usize`
   * subtraction below zero in a relative seek, and the unimplemented `SeekFrom::End`.
   */
  datatype Fault = SliceOutOfRange | SubtractOverflow | Unimplemented

  /** The adapter after an operation, with the operation's return value. */
  datatype Step<+T> = Step(adapter: Adapter, value: T)

  /** `std::io::SeekFrom`. */
  datatype SeekFrom = Start(abs: nat) | Current(off: int) | End(off: int)

  function BlockSize(a: Adapter): nat
  {
    a.device.blockSize
  }

  /**
   * The state invariant: a non-zero block size, a block-aligned buffered offset that never
   * passes the cursor, and a block buffer reporting one block of capacity.
   */
  predicate Valid(a: Adapter)
  {
    && BlockSize(a) > 0
    && a.bufferedBlockOffset % BlockSize(a) == 0
    && a.bufferedBlockOffset <= a.currIndex
    && Capacity(a.blockBuffer) == BlockSize(a)
  }

  /** The cursor's position inside the buffered block. */
  function Intra(a: Adapter): nat
    requires a.bufferedBlockOffset <= a.currIndex
  {
    a.currIndex - a.bufferedBlockOffset
  }

  /** The device offset of the buffered block: partition start added, then cut to `u32`. */
  function DeviceOffset(a: Adapter): nat
  {
    AsU32(a.baseOffset + a.bufferedBlockOffset)
  }

  /** The block content an access works on: the buffer, or the device's block when the buffer is empty. */
  function Loaded(a: Adapter): seq<u8>
  {
    if IsEmpty(a.blockBuffer) then ReadBlock(a.device, DeviceOffset(a)) else a.blockBuffer.inner
  }

  /**
   * What every operation keeps: the device's block size, the partition start, the buffer's
   * reported capacity, and every write already issued (the write log only grows).
   */
  predicate Evolves(a: Adapter, r: Adapter)
  {
    && r.device.blockSize == a.device.blockSize
    && r.baseOffset == a.baseOffset
    && Capacity(r.blockBuffer) == Capacity(a.blockBuffer)
    && a.device.writes <= r.device.writes
  }

  /**
   * Dirty-before-evict: if `a` held unflushed data and `r` is clean or holds another block,
   * the first write issued in between put `data` at `a`'s block.
   */
  predicate WrittenBack(a: Adapter, r: Adapter, data: seq<u8>)
  {
    a.needsFlush && (!r.needsFlush || r.bufferedBlockOffset != a.bufferedBlockOffset) ==>
      && |r.device.writes| > |a.device.writes|
      && r.device.writes[|a.device.writes|] == BlockWrite(DeviceOffset(a), data)
  }

  /** `OffsetScsiDevice::new`: cursor and buffered offset at 0, an empty one-block buffer, clean. */
  function NewAdapter(device: Device, baseOffset: nat): (r: Adapter)
    ensures Valid(r) <==> device.blockSize > 0
    ensures r.currIndex == 0 && r.bufferedBlockOffset == 0 && !r.needsFlush
    ensures IsEmpty(r.blockBuffer) && Capacity(r.blockBuffer) == device.blockSize
    ensures r.device == device && r.baseOffset == baseOffset
  {
    Adapter(device, WithFakeCapacity(device.blockSize), 0, baseOffset, 0, false)
  }

  /**
   * `flush`: nothing when clean. When dirty, exactly one device write of the buffer at the
   * buffered block's offset, after which that offset reads back as the buffer; the buffer,
   * cursor and buffered offset stay as they were.
   */
  function Flush(a: Adapter): (r: Adapter)
    ensures !r.needsFlush
    ensures !a.needsFlush ==> r == a
    ensures a.needsFlush ==>
      && r.device.writes == a.device.writes + [BlockWrite(DeviceOffset(a), a.blockBuffer.inner)]
      && ReadBlock(r.device, DeviceOffset(a)) == a.blockBuffer.inner
      && (forall o | o != DeviceOffset(a) :: ReadBlock(r.device, o) == ReadBlock(a.device, o))
      && r == a.(device := r.device, needsFlush := false)
    ensures Evolves(a, r) && (Valid(a) ==> Valid(r))
  {
    if !a.needsFlush then a
    else a.(device := WriteBlock(a.device, DeviceOffset(a), a.blockBuffer.inner), needsFlush := false)
  }

  /**
   * `fill_buf`: loads the block when the buffer is empty, then yields the buffer from the
   * cursor onward; a cursor beyond the loaded bytes panics on the slice.
   */
  function FillBuf(a: Adapter): (r: Result<Step<seq<u8>>, Fault>)
    requires Valid(a)
    ensures r.Ok? <==> Intra(a) <= |Loaded(a)|
    ensures r.Err? ==> r.error == SliceOutOfRange
    ensures r.Ok? ==> r.value.value == Loaded(a)[Intra(a)..]
    ensures r.Ok? ==> r.value.adapter == a.(blockBuffer := a.blockBuffer.(inner := Loaded(a)))
  {
    var b :=
      if IsEmpty(a.blockBuffer) then
        a.(blockBuffer := a.blockBuffer.(inner := a.blockBuffer.inner + ReadBlock(a.device, DeviceOffset(a))))
      else a;
    var sliceOffset := a.currIndex - a.bufferedBlockOffset;
    if sliceOffset > |b.blockBuffer.inner| then Err(SliceOutOfRange)
    else Ok(Step(b, b.blockBuffer.inner[sliceOffset..]))
  }

  /**
   * `consume`: advances the cursor by `amt`. Only a cursor strictly past the block end
   * evicts: flush if dirty, clean, empty buffer, buffered offset one block further. A cursor
   * landing exactly on the block end keeps the block resident.
   */
  function Consume(a: Adapter, amt: nat): (r: Adapter)
    requires Valid(a)
    ensures Valid(r) && Evolves(a, r)
    ensures r.currIndex == a.currIndex + amt
    ensures a.currIndex + amt <= a.bufferedBlockOffset + BlockSize(a) ==> r == a.(currIndex := a.currIndex + amt)
    ensures a.currIndex + amt > a.bufferedBlockOffset + BlockSize(a) ==>
      && r.bufferedBlockOffset == a.bufferedBlockOffset + BlockSize(a)
      && IsEmpty(r.blockBuffer) && !r.needsFlush
      && r.device == Flush(a).device
    ensures WrittenBack(a, r, a.blockBuffer.inner)
  {
    AlignedStep(a.bufferedBlockOffset, BlockSize(a));
    var moved := a.(currIndex := a.currIndex + amt);
    if moved.currIndex > moved.bufferedBlockOffset + BlockSize(moved) then
      var flushed := if moved.needsFlush then Flush(moved).(needsFlush := false) else moved;
      flushed.(blockBuffer := Clear(flushed.blockBuffer),
               bufferedBlockOffset := flushed.bufferedBlockOffset + BlockSize(flushed))
    else moved
  }

  /**
   * The loop of `read`, with `acc` the bytes copied so far and `needed` the length of the
   * caller's slice. Each round copies from `fill_buf` at most what is still needed; an empty
   * `fill_buf` slice ends the read early with what was accumulated.
   */
  function ReadLoop(a: Adapter, needed: nat, acc: seq<u8>): (r: Result<Step<seq<u8>>, Fault>)
    requires Valid(a) && |acc| <= needed
    ensures r.Ok? ==> Valid(r.value.adapter) && Evolves(a, r.value.adapter)
    ensures r.Ok? ==> |acc| <= |r.value.value| <= needed && r.value.value[..|acc|] == acc
    ensures r.Ok? ==> r.value.adapter.currIndex == a.currIndex + |r.value.value| - |acc|
    ensures r.Ok? && !a.needsFlush ==> !r.value.adapter.needsFlush
    decreases needed - |acc|
  {
    if |acc| >= needed then Ok(Step(a, acc))
    else
      var remaining := needed - |acc|;
      match FillBuf(a)
      case Err(f) => Err(f)
      case Ok(filled) =>
        var slice := filled.value;
        if |slice| == 0 then Ok(Step(filled.adapter, acc))
        else
          var take := if |slice| < remaining then |slice| else remaining;
          ReadLoop(Consume(filled.adapter, take), needed, acc + slice[..take])
  }

  /** One round of the `read` loop that copies something: `consume` what was copied, then go on. */
  lemma ReadLoopStep(a: Adapter, needed: nat, acc: seq<u8>)
    requires Valid(a) && |acc| < needed
    requires FillBuf(a).Ok? && |FillBuf(a).value.value| > 0
    ensures var slice := FillBuf(a).value.value;
            var take := if |slice| < needed - |acc| then |slice| else needed - |acc|;
            ReadLoop(a, needed, acc) == ReadLoop(Consume(FillBuf(a).value.adapter, take), needed, acc + slice[..take])
  {
  }

  /** `ReadLoopStep` with the count copied in the round given as `take`, the smaller of what is there and what is missing. */
  lemma ReadLoopRound(a: Adapter, needed: nat, acc: seq<u8>, a1: Adapter, slice: seq<u8>, take: nat)
    requires Valid(a) && |acc| < needed
    requires FillBuf(a) == Ok(Step(a1, slice)) && |slice| > 0
    requires take <= |slice| && |acc| + take <= needed && (take == |slice| || |acc| + take == needed)
    ensures Valid(a1)
    ensures ReadLoop(a, needed, acc) == ReadLoop(Consume(a1, take), needed, acc + slice[..take])
  {
    ReadLoopStep(a, needed, acc);
  }

  /** A step that kept the block, its flag and the device changes nothing about what must be written back. */
  lemma WrittenBackSameBlock(a: Adapter, b: Adapter, c: Adapter, data: seq<u8>)
    requires b.needsFlush == a.needsFlush && b.bufferedBlockOffset == a.bufferedBlockOffset
    requires b.device == a.device && b.baseOffset == a.baseOffset
    requires WrittenBack(b, c, data)
    ensures WrittenBack(a, c, data)
  {
  }

  /** A write-back already done by a step that left the adapter clean stays in the log. */
  lemma WrittenBackKept(a: Adapter, b: Adapter, c: Adapter, data: seq<u8>)
    requires WrittenBack(a, b, data) && (a.needsFlush ==> !b.needsFlush) && Evolves(b, c)
    ensures WrittenBack(a, c, data)
  {
    if a.needsFlush {
      assert b.device.writes[|a.device.writes|] == c.device.writes[|a.device.writes|];
    }
  }

  /**
   * Dirty-before-evict for `read`: a dirty block that the loop leaves behind, by eviction,
   * was written back first, at its own offset and with the content that was loaded.
   */
  lemma {:induction false} ReadLoopWritesBack(a: Adapter, needed: nat, acc: seq<u8>)
    requires Valid(a) && |acc| <= needed
    ensures ReadLoop(a, needed, acc).Ok? ==> WrittenBack(a, ReadLoop(a, needed, acc).value.adapter, Loaded(a))
    decreases needed - |acc|
  {
    if |acc| < needed && FillBuf(a).Ok? && |FillBuf(a).value.value| > 0 {
      var filled := FillBuf(a).value;
      var slice := filled.value;
      var take := if |slice| < needed - |acc| then |slice| else needed - |acc|;
      var b := Consume(filled.adapter, take);
      ReadLoopStep(a, needed, acc);
      ReadLoopWritesBack(b, needed, acc + slice[..take]);
      var r := ReadLoop(b, needed, acc + slice[..take]);
      if r.Ok? {
        assert filled.adapter.blockBuffer.inner == Loaded(a);
        if a.currIndex + take <= a.bufferedBlockOffset + BlockSize(a) {
          assert Loaded(b) == Loaded(a);
          WrittenBackSameBlock(a, b, r.value.adapter, Loaded(a));
        } else {
          WrittenBackSameBlock(a, filled.adapter, b, Loaded(a));
          WrittenBackKept(a, b, r.value.adapter, Loaded(a));
        }
      }
    }
  }

  /**
   * `read` into a slice of length `n`. The count is at most `n` and the cursor advances by
   * it; the first bytes come from the loaded block at the cursor's position inside it; the
   * adapter never becomes dirty; a zero-length read changes nothing.
   */
  function Read(a: Adapter, n: nat): (r: Result<Step<seq<u8>>, Fault>)
    requires Valid(a)
    ensures n == 0 ==> r == Ok(Step(a, []))
    ensures n > 0 ==> (Intra(a) > |Loaded(a)| ==> r == Err(SliceOutOfRange))
    ensures r.Ok? ==> Valid(r.value.adapter) && Evolves(a, r.value.adapter)
    ensures r.Ok? ==> |r.value.value| <= n
    ensures r.Ok? ==> r.value.adapter.currIndex == a.currIndex + |r.value.value|
    ensures r.Ok? && !a.needsFlush ==> !r.value.adapter.needsFlush
    ensures r.Ok? && Intra(a) <= |Loaded(a)| ==>
      var k := if n < |Loaded(a)| - Intra(a) then n else |Loaded(a)| - Intra(a);
      k <= |r.value.value| && r.value.value[..k] == Loaded(a)[Intra(a)..Intra(a) + k]
    ensures Intra(a) + n <= |Loaded(a)| ==> r.Ok? && r.value.value == Loaded(a)[Intra(a)..Intra(a) + n]
    ensures r.Ok? ==> WrittenBack(a, r.value.adapter, Loaded(a))
    ensures n > 0 && Intra(a) <= |Loaded(a)| <= BlockSize(a) ==>
      var L := Loaded(a);
      var k := if n < |L| - Intra(a) then n else |L| - Intra(a);
      r == Ok(Step(a.(blockBuffer := a.blockBuffer.(inner := L), currIndex := a.currIndex + k), L[Intra(a)..Intra(a) + k]))
  {
    ReadLoopFirstRound(a, n);
    ReadLoopWithinBlockIf(a, n);
    ReadLoopWritesBack(a, n, []);
    ReadLoop(a, n, [])
  }

  /** `read` panics when the cursor is beyond the bytes the loaded block holds. */
  lemma ReadLoopOutOfRange(a: Adapter, n: nat)
    requires Valid(a) && n > 0 && Intra(a) > |Loaded(a)|
    ensures ReadLoop(a, n, []) == Err(SliceOutOfRange)
  {
    assert FillBuf(a) == Err(SliceOutOfRange);
  }

  /** The first `k` bytes from position `i` on, as the loop accumulates them. */
  lemma PrefixOfSuffix(s: seq<u8>, i: nat, k: nat)
    requires i + k <= |s|
    ensures [] + s[i..][..k] == s[i..i + k]
  {
  }

  /** The first round of `read` with the cursor inside the loaded bytes, as one `consume` and the rest of the loop. */
  lemma ReadLoopFirstStep(a: Adapter, n: nat)
    requires Valid(a) && n > 0 && Intra(a) < |Loaded(a)|
    ensures var L := Loaded(a);
            var k := if n < |L| - Intra(a) then n else |L| - Intra(a);
            ReadLoop(a, n, []) == ReadLoop(Consume(a.(blockBuffer := a.blockBuffer.(inner := L)), k), n, L[Intra(a)..Intra(a) + k])
  {
    var L := Loaded(a);
    var i := Intra(a);
    var a1 := a.(blockBuffer := a.blockBuffer.(inner := L));
    var slice := L[i..];
    assert FillBuf(a) == Ok(Step(a1, slice));
    var k := if n < |L| - i then n else |L| - i;
    ReadLoopRound(a, n, [], a1, slice, k);
    PrefixOfSuffix(L, i, k);
  }

  /** The first round of `read`: the bytes it copies are the loaded block from the cursor's position. */
  lemma ReadLoopCopiesBlock(a: Adapter, n: nat)
    requires Valid(a) && n > 0 && Intra(a) < |Loaded(a)|
    ensures var L := Loaded(a);
            var k := if n < |L| - Intra(a) then n else |L| - Intra(a);
            ReadLoop(a, n, []).Ok? ==>
              k <= |ReadLoop(a, n, []).value.value| && ReadLoop(a, n, []).value.value[..k] == L[Intra(a)..Intra(a) + k]
  {
    ReadLoopFirstStep(a, n);
  }

  /** A request the loaded block can satisfy from the cursor is answered in full from it. */
  lemma ReadLoopWholeRequest(a: Adapter, n: nat)
    requires Valid(a) && n > 0 && Intra(a) + n <= |Loaded(a)|
    ensures ReadLoop(a, n, []) == Ok(Step(Consume(a.(blockBuffer := a.blockBuffer.(inner := Loaded(a))), n),
                                          Loaded(a)[Intra(a)..Intra(a) + n]))
  {
    var L := Loaded(a);
    var i := Intra(a);
    var a1 := a.(blockBuffer := a.blockBuffer.(inner := L));
    var slice := L[i..];
    assert FillBuf(a) == Ok(Step(a1, slice));
    ReadLoopRound(a, n, [], a1, slice, n);
    PrefixOfSuffix(L, i, n);
  }

  /** The first round of `read`, its three cases together. */
  lemma ReadLoopFirstRound(a: Adapter, n: nat)
    requires Valid(a)
    ensures n > 0 && Intra(a) > |Loaded(a)| ==> ReadLoop(a, n, []) == Err(SliceOutOfRange)
    ensures ReadLoop(a, n, []).Ok? && Intra(a) <= |Loaded(a)| ==>
      var k := if n < |Loaded(a)| - Intra(a) then n else |Loaded(a)| - Intra(a);
      var data := ReadLoop(a, n, []).value.value;
      k <= |data| && data[..k] == Loaded(a)[Intra(a)..Intra(a) + k]
    ensures Intra(a) + n <= |Loaded(a)| ==>
      ReadLoop(a, n, []).Ok? && ReadLoop(a, n, []).value.value == Loaded(a)[Intra(a)..Intra(a) + n]
  {
    if n > 0 && Intra(a) > |Loaded(a)| {
      ReadLoopOutOfRange(a, n);
    }
    if n > 0 && Intra(a) < |Loaded(a)| {
      ReadLoopCopiesBlock(a, n);
    }
    if n > 0 && Intra(a) + n <= |Loaded(a)| {
      ReadLoopWholeRequest(a, n);
    }
  }

  /**
   * The `read` loop started inside a loaded block no longer than one block stays in it: it copies
   * `min(n, rest of block)` bytes from the cursor's position, leaves the block resident with
   * the same buffered offset, flag and device, and moves the cursor by that count.
   */
  lemma ReadLoopWithinBlock(a: Adapter, n: nat)
    requires Valid(a) && n > 0
    requires Intra(a) <= |Loaded(a)| <= BlockSize(a)
    ensures var L := Loaded(a);
            var k := if n < |L| - Intra(a) then n else |L| - Intra(a);
            ReadLoop(a, n, []) == Ok(Step(a.(blockBuffer := a.blockBuffer.(inner := L), currIndex := a.currIndex + k),
                                  L[Intra(a)..Intra(a) + k]))
  {
    if Intra(a) + n <= |Loaded(a)| {
      ReadLoopWholeRequest(a, n);
      var a1 := a.(blockBuffer := a.blockBuffer.(inner := Loaded(a)));
      assert Consume(a1, n) == a1.(currIndex := a.currIndex + n);
    } else {
      ReadToBlockEnd(a, n);
      var L := Loaded(a);
      assert a.currIndex + (|L| - Intra(a)) == a.bufferedBlockOffset + |L|;
      assert L[Intra(a)..Intra(a) + (|L| - Intra(a))] == L[Intra(a)..];
    }
  }

  /** A request longer than the rest of the loaded block gets exactly that rest. */
  lemma ReadToBlockEnd(a: Adapter, n: nat)
    requires Valid(a) && n > 0
    requires Intra(a) <= |Loaded(a)| <= BlockSize(a) && |Loaded(a)| < Intra(a) + n
    ensures var L := Loaded(a);
            ReadLoop(a, n, []) == Ok(Step(a.(blockBuffer := a.blockBuffer.(inner := L), currIndex := a.bufferedBlockOffset + |L|),
                                          L[Intra(a)..]))
  {
    var L := Loaded(a);
    var i := Intra(a);
    var a1 := a.(blockBuffer := a.blockBuffer.(inner := L));
    var slice := L[i..];
    assert FillBuf(a) == Ok(Step(a1, slice));
    if |slice| > 0 {
      ReadLoopStep(a, n, []);
      var a2 := Consume(a1, |slice|);
      assert a2 == a1.(currIndex := a.bufferedBlockOffset + |L|);
      assert [] + slice[..|slice|] == slice;
      ReadLoopAtBlockEnd(a2, n, slice);
    }
  }

  /** The `read` loop with the cursor on the resident block's end stops at once, changing nothing. */
  lemma ReadLoopAtBlockEnd(b: Adapter, needed: nat, acc: seq<u8>)
    requires Valid(b) && !IsEmpty(b.blockBuffer) && Intra(b) == Size(b.blockBuffer)
    requires |acc| <= needed
    ensures ReadLoop(b, needed, acc) == Ok(Step(b, acc))
  {
    assert b.(blockBuffer := b.blockBuffer.(inner := Loaded(b))) == b;
    assert FillBuf(b) == Ok(Step(b, []));
  }

  /** `ReadLoopWithinBlock` in the form `read` uses. */
  lemma ReadLoopWithinBlockIf(a: Adapter, n: nat)
    requires Valid(a)
    ensures n > 0 && Intra(a) <= |Loaded(a)| <= BlockSize(a) ==>
      var L := Loaded(a);
      var k := if n < |L| - Intra(a) then n else |L| - Intra(a);
      ReadLoop(a, n, []) == Ok(Step(a.(blockBuffer := a.blockBuffer.(inner := L), currIndex := a.currIndex + k), L[Intra(a)..Intra(a) + k]))
  {
    if n > 0 && Intra(a) <= |Loaded(a)| <= BlockSize(a) {
      ReadLoopWithinBlock(a, n);
    }
  }

  /** The in-block write at src/main.rs:469-478 on a buffer that is already loaded, then `consume`. */
  function WriteLoaded(a: Adapter, bytes: seq<u8>): (r: Result<Step<nat>, Fault>)
    requires Valid(a) && Intra(a) + |bytes| <= BlockSize(a)
    ensures r.Ok? <==> Intra(a) + |bytes| <= |a.blockBuffer.inner|
    ensures r.Err? ==> r.error == SliceOutOfRange
    ensures r.Ok? ==>
      var b := r.value.adapter;
      && r.value.value == |bytes|
      && Valid(b)
      && b == a.(blockBuffer := b.blockBuffer, needsFlush := true, currIndex := a.currIndex + |bytes|)
      && Capacity(b.blockBuffer) == Capacity(a.blockBuffer)
      && b.blockBuffer.inner == Splice(a.blockBuffer.inner, Intra(a), bytes)
  {
    var start := Intra(a);
    var end := start + |bytes|;
    if end > |a.blockBuffer.inner| then Err(SliceOutOfRange)
    else
      var written := a.(blockBuffer := a.blockBuffer.(inner := Splice(a.blockBuffer.inner, start, bytes)),
                        needsFlush := true);
      Ok(Step(Consume(written, |bytes|), |bytes|))
  }

  /** `s` with `bytes` copied over it from `start`. */
  function Splice(s: seq<u8>, start: nat, bytes: seq<u8>): (r: seq<u8>)
    requires start + |bytes| <= |s|
    ensures |r| == |s|
    ensures r[start..start + |bytes|] == bytes
    ensures forall i | 0 <= i < |s| && !(start <= i < start + |bytes|) :: r[i] == s[i]
  {
    s[..start] + bytes + s[start + |bytes|..]
  }

  /**
   * `write` of bytes that fit in the current block. The block is loaded first if the buffer
   * is empty; exactly the bytes from the cursor's position on are overwritten and the rest of
   * the block is kept; the adapter becomes dirty even for an empty write; nothing reaches the
   * device; the cursor advances by the length, which is returned.
   */
  function Write(a: Adapter, bytes: seq<u8>): (r: Result<Step<nat>, Fault>)
    requires Valid(a)
    requires Intra(a) + |bytes| <= BlockSize(a)
    ensures r.Ok? <==> Intra(a) + |bytes| <= |Loaded(a)|
    ensures r.Err? ==> r.error == SliceOutOfRange
    ensures r.Ok? ==>
      var b := r.value.adapter;
      var start := Intra(a);
      && r.value.value == |bytes|
      && Valid(b) && Evolves(a, b)
      && b.currIndex == a.currIndex + |bytes|
      && b.bufferedBlockOffset == a.bufferedBlockOffset
      && b.needsFlush
      && b.device == a.device
      && |b.blockBuffer.inner| == |Loaded(a)|
      && b.blockBuffer.inner[start..start + |bytes|] == bytes
      && (forall i | 0 <= i < |Loaded(a)| && !(start <= i < start + |bytes|) ::
            b.blockBuffer.inner[i] == Loaded(a)[i])
  {
    if IsEmpty(a.blockBuffer) then
      match FillBuf(a)
      case Err(f) => Err(f)
      case Ok(filled) => WriteLoaded(filled.adapter, bytes)
    else WriteLoaded(a, bytes)
  }

  /** The common tail of both seek forms: round the target down to its block and drop the buffer. */
  function MoveTo(a: Adapter, abs: nat): (r: Adapter)
    requires BlockSize(a) > 0
    ensures r.currIndex == abs && IsEmpty(r.blockBuffer)
    ensures r.bufferedBlockOffset % BlockSize(a) == 0
    ensures r.bufferedBlockOffset <= abs < r.bufferedBlockOffset + BlockSize(a)
    ensures r == a.(bufferedBlockOffset := r.bufferedBlockOffset, blockBuffer := Clear(a.blockBuffer), currIndex := abs)
  {
    RoundDown(abs, BlockSize(a));
    var blockOffset := abs - abs % BlockSize(a);
    a.(bufferedBlockOffset := blockOffset, blockBuffer := Clear(a.blockBuffer), currIndex := abs)
  }

  /** `r` is `a` flushed and moved to `target`: the cursor on it, the block containing it selected, the buffer empty. */
  predicate Repositioned(a: Adapter, r: Adapter, target: nat)
    requires BlockSize(a) > 0
  {
    && r.currIndex == target
    && r.bufferedBlockOffset % BlockSize(a) == 0
    && r.bufferedBlockOffset <= target < r.bufferedBlockOffset + BlockSize(a)
    && IsEmpty(r.blockBuffer)
    && !r.needsFlush
    && r.device == Flush(a).device
    && Evolves(a, r)
  }

  /**
   * `seek`: both `Start` and `Current` flush first if dirty, then select the block holding
   * the target with an empty buffer and a clean flag, and return the target. A relative
   * offset reaching below zero fails before anything is flushed; `End` is unimplemented.
   */
  function Seek(a: Adapter, pos: SeekFrom): (r: Result<Step<nat>, Fault>)
    requires Valid(a)
    ensures pos.End? ==> r == Err(Unimplemented)
    ensures pos.Start? ==> r.Ok? && r.value.value == pos.abs
    ensures pos.Current? ==> (r.Err? <==> pos.off < 0 && -pos.off > a.currIndex)
    ensures pos.Current? && r.Err? ==> r.error == SubtractOverflow
    ensures pos.Current? && r.Ok? ==> r.value.value == a.currIndex + pos.off
    ensures r.Ok? ==> Repositioned(a, r.value.adapter, r.value.value) && Valid(r.value.adapter)
    ensures r.Ok? ==> WrittenBack(a, r.value.adapter, a.blockBuffer.inner)
  {
    match pos
    case Start(abs) => Ok(Step(MoveTo(Flush(a), abs), abs))
    case Current(off) =>
      if off < 0 && -off > a.currIndex then Err(SubtractOverflow)
      else
        var abs: nat := a.currIndex + off;
        Ok(Step(MoveTo(Flush(a), abs), abs))
    case End(_) => Err(Unimplemented)
  }

  /**
   * The drop-time flush as an explicit close: a dirty adapter is written back once, and the
   * result is clean. It is `flush` itself, so it has flush's frame and idempotence.
   */
  function Close(a: Adapter): (r: Adapter)
    ensures r == Flush(a)
    ensures !r.needsFlush
    ensures !a.needsFlush ==> r == a
    ensures a.needsFlush ==>
      r.device.writes == a.device.writes + [BlockWrite(DeviceOffset(a), a.blockBuffer.inner)]
  {
    if a.needsFlush then Flush(a) else a
  }
}
