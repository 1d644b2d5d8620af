/**
 * Properties of the block cache that relate several operations: reads inside one block,
 * the stall the strict eviction test causes at a block end, flush idempotence, and the
 * write / seek / read round trip.
 */
module OffsetDeviceProofs {
  import opened Bytes
  import opened Wrappers
  import opened VecBuffer
  import opened Alignment
  import opened OffsetDevice

  /** Two flushes in a row issue at most one device write; the second changes nothing. */
  lemma FlushTwiceWritesAtMostOnce(a: Adapter)
    ensures Flush(Flush(a)) == Flush(a)
    ensures |Flush(Flush(a)).device.writes| <= |a.device.writes| + 1
  {
  }

  /**
   * With the cursor exactly at the end of the resident block, `read` returns 0 bytes and
   * changes nothing: `consume` keeps a block whose end the cursor merely reached.
   */
  lemma ReadAtBlockEndReturnsNothing(a: Adapter, n: nat)
    requires Valid(a) && !IsEmpty(a.blockBuffer)
    requires Intra(a) == Size(a.blockBuffer)
    ensures Read(a, n) == Ok(Step(a, []))
  {
    ReadLoopAtBlockEnd(a, n, []);
  }

  /**
   * A read asking for more than the rest of a full block returns only the rest of the
   * block, and every later read returns 0 bytes until a seek: the cursor stops on the block
   * end and the strict `>` in `consume` never evicts the block.
   */
  lemma ReadPastBlockEndStalls(a: Adapter, n: nat, m: nat)
    requires Valid(a)
    requires |Loaded(a)| == BlockSize(a) && Intra(a) < BlockSize(a)
    requires n > BlockSize(a) - Intra(a)
    ensures Read(a, n).Ok?
    ensures |Read(a, n).value.value| == BlockSize(a) - Intra(a)
    ensures Read(Read(a, n).value.adapter, m) == Ok(Step(Read(a, n).value.adapter, []))
  {
    var b := Read(a, n).value.adapter;
    assert Intra(b) == Size(b.blockBuffer);
    ReadAtBlockEndReturnsNothing(b, m);
  }

  /**
   * A write that ends on the block end leaves the cursor there, because the strict `>` in
   * `consume` does not evict. Every later non-empty write at that cursor straddles the block
   * (`cur_block_size` is 0), which is the always-panicking branch.
   */
  lemma WriteToBlockEndLeavesNoRoom(a: Adapter, bytes: seq<u8>, more: seq<u8>)
    requires Valid(a) && Intra(a) + |bytes| == BlockSize(a)
    requires Write(a, bytes).Ok? && |more| > 0
    ensures var b := Write(a, bytes).value.adapter;
            Valid(b) && Intra(b) == BlockSize(b) && Intra(b) + |more| > BlockSize(b)
  {
  }

  /**
   * Round trip inside one block: writing `bytes` at the cursor `p`, seeking to `Start(p)`
   * and reading `|bytes|` bytes yields exactly `bytes`. The seek's flush puts the block on
   * the device and the read loads it back from the same (`u32`-truncated) offset.
   */
  lemma WriteSeekReadRoundTrip(a: Adapter, bytes: seq<u8>)
    requires Valid(a) && Intra(a) + |bytes| <= BlockSize(a)
    requires Write(a, bytes).Ok?
    ensures var a1 := Write(a, bytes).value.adapter;
            Seek(a1, Start(a.currIndex)).Ok?
    ensures var a1 := Write(a, bytes).value.adapter;
            var a2 := Seek(a1, Start(a.currIndex)).value.adapter;
            Read(a2, |bytes|).Ok? && Read(a2, |bytes|).value.value == bytes
  {
    var p := a.currIndex;
    var w := Write(a, bytes);
    var a1 := w.value.adapter;
    assert Valid(a1) && a1.bufferedBlockOffset == a.bufferedBlockOffset && a1.needsFlush && Evolves(a, a1);
    assert a1.blockBuffer.inner[Intra(a)..Intra(a) + |bytes|] == bytes;
    assert |a1.blockBuffer.inner| >= Intra(a) + |bytes|;
    var s := Seek(a1, Start(p));
    var a2 := s.value.adapter;
    assert Valid(a2) && Repositioned(a1, a2, p);
    if |bytes| > 0 {
      SeekBackFindsWrittenBlock(a, a1, a2);
      assert Intra(a2) + |bytes| <= |Loaded(a2)|;
      assert Loaded(a2)[Intra(a2)..Intra(a2) + |bytes|] == bytes;
    }
  }

  /** After an in-block write, seeking back to where it started selects the same block, now on the device. */
  lemma SeekBackFindsWrittenBlock(a: Adapter, a1: Adapter, a2: Adapter)
    requires Valid(a) && Valid(a1) && Intra(a) < BlockSize(a)
    requires a1.bufferedBlockOffset == a.bufferedBlockOffset && a1.needsFlush && Evolves(a, a1)
    requires Repositioned(a1, a2, a.currIndex)
    ensures Loaded(a2) == a1.blockBuffer.inner
    ensures Intra(a2) == Intra(a)
  {
    var bs := BlockSize(a);
    if a2.bufferedBlockOffset < a.bufferedBlockOffset {
      AlignedUnique(a2.bufferedBlockOffset, a.bufferedBlockOffset, bs);
    } else {
      AlignedUnique(a.bufferedBlockOffset, a2.bufferedBlockOffset, bs);
    }
    assert DeviceOffset(a2) == DeviceOffset(a1);
  }
}
