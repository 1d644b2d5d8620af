/**
 * The external SCSI block device, reduced to what the cache relies on: a constant block
 * size, the block stored at each 32-bit byte offset, and a log of every write it received.
 * Reading an offset that holds nothing yields no bytes, the end-of-device signal.
 */
module BlockDevice {
  import opened Bytes

  /** One write the device received: the offset it was addressed to and the bytes sent. */
  datatype BlockWrite = BlockWrite(offset: nat, data: seq<u8>)

  datatype Device = Device(blockSize: nat, blocks: map<nat, seq<u8>>, writes: seq<BlockWrite>)

  /** Offsets reach the device as `u32`. */
  const U32_MODULUS: nat := 0x1_0000_0000

  /** `x as u32`: truncation to the low 32 bits. */
  function AsU32(x: nat): (r: nat)
    ensures r < U32_MODULUS
    ensures x < U32_MODULUS ==> r == x
    ensures (x - r) % U32_MODULUS == 0
  {
    x % U32_MODULUS
  }

  /** What a read at `offset` delivers: the last block written there, or nothing. */
  function ReadBlock(d: Device, offset: nat): seq<u8>
  {
    if offset in d.blocks then d.blocks[offset] else []
  }

  /** A write: the block at `offset` becomes `data`, and the write is logged. */
  function WriteBlock(d: Device, offset: nat, data: seq<u8>): (r: Device)
    ensures ReadBlock(r, offset) == data
    ensures forall o | o != offset :: ReadBlock(r, o) == ReadBlock(d, o)
    ensures r.writes == d.writes + [BlockWrite(offset, data)]
    ensures r.blockSize == d.blockSize
  {
    d.(blocks := d.blocks[offset := data], writes := d.writes + [BlockWrite(offset, data)])
  }
}
