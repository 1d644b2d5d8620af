/**
 * The command channel: `in_transfer` and `out_transfer`, which stage bytes around exactly
 * one pull from or push to the USB transport. The transport itself is abstract: each call
 * is given the reply the transport produced.
 */
module Channel {
  import opened Bytes
  import opened Wrappers
  import opened VecBuffer

  /** The scsi crate's `UsbTransferDirection`. */
  datatype TransferDirection = In | Out

  /**
   * A failed pull or push. The source maps it to a transfer error and then unwraps it, so
   * the caller panics; the direction records which transfer it was.
   */
  datatype TransferFault = TransferPanic(direction: TransferDirection)

  /** What one bulk read delivered: the bytes written to the front of the staging vector. */
  datatype PullReply = Pulled(data: seq<u8>) | PullFailed

  /** What one bulk write reported: the number of bytes the device accepted. */
  datatype PushReply = Pushed(count: nat) | PushFailed

  /** Appends `bytes` to `b` one `push_byte` at a time, front first. */
  function PushAll(b: VecBuf, bytes: seq<u8>): (r: VecBuf)
    ensures r.inner == b.inner + bytes
    ensures Capacity(r) == Capacity(b)
    decreases |bytes|
  {
    if |bytes| == 0 then b
    else
      assert [bytes[0]] + bytes[1..] == bytes;
      PushAll(PushByte(b, bytes[0]).0, bytes[1..])
  }

  /**
   * Pulls from `b` with `pull_byte` until its size is 0, collecting the bytes in the
   * order they came out. The pull cannot fail because the buffer is never empty there.
   */
  function Drain(b: VecBuf): (r: (VecBuf, seq<u8>))
    ensures r.1 == b.inner
    ensures IsEmpty(r.0) && Capacity(r.0) == Capacity(b)
    decreases Size(b)
  {
    if Size(b) == 0 then (b, [])
    else
      var pulled := PullByte(b);
      var rest := Drain(pulled.0);
      (rest.0, [pulled.1.value] + rest.1)
  }

  /** The staging vector: `capacity` zeros, of which the pull overwrote the first `|data|`. */
  function Staged(capacity: nat, data: seq<u8>): (r: seq<u8>)
    requires |data| <= capacity
    ensures |r| == capacity && r[..|data|] == data
    ensures forall i | |data| <= i < capacity :: r[i] == 0
  {
    data + Zeros(capacity - |data|)
  }

  /**
   * `in_transfer`: one pull into a zero-filled staging vector as long as the sink's
   * reported capacity, then every staged byte appended to the sink in order, not only the
   * ones the pull delivered. Returns the pull's count.
   */
  function InTransfer(sink: VecBuf, reply: PullReply): (r: Result<(VecBuf, nat), TransferFault>)
    requires reply.Pulled? ==> |reply.data| <= Capacity(sink)
    ensures r.Err? <==> reply.PullFailed?
    ensures r.Err? ==> r.error == TransferPanic(In)
    ensures r.Ok? ==> r.value.1 == |reply.data|
    ensures r.Ok? ==> Size(r.value.0) == Size(sink) + Capacity(sink)
    ensures r.Ok? ==> Capacity(r.value.0) == Capacity(sink)
    ensures r.Ok? ==> r.value.0.inner[..Size(sink)] == sink.inner
    ensures r.Ok? ==> r.value.0.inner[Size(sink)..Size(sink) + |reply.data|] == reply.data
    ensures r.Ok? ==> forall i | Size(sink) + |reply.data| <= i < Size(r.value.0) :: r.value.0.inner[i] == 0
  {
    match reply
    case PullFailed => Err(TransferPanic(In))
    case Pulled(data) =>
      var staged := Staged(Capacity(sink), data);
      var filled := PushAll(sink, staged);
      assert filled.inner[Size(sink)..Size(sink) + |data|] == staged[..|data|];
      Ok((filled, |data|))
  }

  /**
   * `out_transfer`: drains the source into a staging vector in FIFO order and hands that
   * vector to exactly one push. Returns the emptied source, the bytes pushed and the push's count.
   */
  function OutTransfer(source: VecBuf, reply: PushReply): (r: Result<(VecBuf, seq<u8>, nat), TransferFault>)
    ensures r.Err? <==> reply.PushFailed?
    ensures r.Err? ==> r.error == TransferPanic(Out)
    ensures r.Ok? ==> r.value.1 == source.inner
    ensures r.Ok? ==> IsEmpty(r.value.0) && Capacity(r.value.0) == Capacity(source)
    ensures r.Ok? ==> r.value.2 == reply.count
  {
    var drained := Drain(source);
    match reply
    case PushFailed => Err(TransferPanic(Out))
    case Pushed(count) => Ok((drained.0, drained.1, count))
  }

  /**
   * Staging preserves order end to end: what one pull delivers into an empty sink is, when
   * that sink is later drained by an out transfer, pushed in the same order, followed by the
   * zero padding of the staging vector.
   */
  lemma PullThenPushPreservesOrder(sink: VecBuf, data: seq<u8>, count: nat)
    requires IsEmpty(sink) && |data| <= Capacity(sink)
    ensures InTransfer(sink, Pulled(data)).Ok?
    ensures var filled := InTransfer(sink, Pulled(data)).value.0;
            OutTransfer(filled, Pushed(count)) == Ok((Clear(sink), Staged(Capacity(sink), data), count))
  {
    var filled := InTransfer(sink, Pulled(data)).value.0;
    var staged := Staged(Capacity(sink), data);
    assert filled.inner[..|data|] == data;
    assert filled.inner == staged;
  }
}
