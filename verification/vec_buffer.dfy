/**
 * `VecNewtype`: the growable byte FIFO that serves as the block cache's buffer and as the
 * sink and source of every channel transfer. Its reported capacity is a fixed "fake" size
 * that has nothing to do with how many bytes it currently holds.
 */
module VecBuffer {
  import opened Bytes
  import opened Wrappers

  /** Capacity reported by a buffer made with `new`, and the floor used when wrapping a vector. */
  const DEFAULT_FAKE_SIZE: nat := 512

  /** `inner` is the content, front first; `fakeSize` is the capacity the buffer reports. */
  datatype VecBuf = VecBuf(inner: seq<u8>, fakeSize: nat)

  /** The scsi crate's `BufferTooSmallError` cause, the only error a buffer reports. */
  datatype BufferError = BufferTooSmall(expected: nat, actual: nat)

  /** `size`: how many bytes the buffer holds, so also how many `pull_byte` calls succeed. */
  function Size(b: VecBuf): (r: nat)
    ensures r == |b.inner|
  {
    |b.inner|
  }

  /** `capacity`: the fake size, whatever the content. */
  function Capacity(b: VecBuf): (r: nat)
    ensures r == b.fakeSize
  {
    b.fakeSize
  }

  predicate IsEmpty(b: VecBuf)
  {
    Size(b) == 0
  }

  /** `VecNewtype::new`: empty, reporting the default capacity. */
  function New(): (r: VecBuf)
    ensures IsEmpty(r) && Capacity(r) == DEFAULT_FAKE_SIZE
  {
    WithFakeCapacity(DEFAULT_FAKE_SIZE)
  }

  /** `VecNewtype::with_fake_capacity`: empty, reporting capacity `sz`. */
  function WithFakeCapacity(sz: nat): (r: VecBuf)
    ensures IsEmpty(r) && Capacity(r) == sz
  {
    VecBuf([], sz)
  }

  /**
   * `From<Vec<u8>>`: wraps the vector as it is. The reported capacity is never below the
   * default and always covers the content: twice the length for long vectors, else 512.
   */
  function FromVec(v: seq<u8>): (r: VecBuf)
    ensures r.inner == v
    ensures Capacity(r) >= DEFAULT_FAKE_SIZE && Capacity(r) >= Size(r)
    ensures |v| > DEFAULT_FAKE_SIZE ==> Capacity(r) == 2 * |v|
    ensures |v| <= DEFAULT_FAKE_SIZE ==> Capacity(r) == DEFAULT_FAKE_SIZE
  {
    var fakeSize := if |v| > DEFAULT_FAKE_SIZE then 2 * |v| else DEFAULT_FAKE_SIZE;
    VecBuf(v, fakeSize)
  }

  /** `push_byte`: appends at the back and reports one byte stored; it cannot fail. */
  function PushByte(b: VecBuf, x: u8): (r: (VecBuf, Result<nat, BufferError>))
    ensures r.0.inner == b.inner + [x] && Capacity(r.0) == Capacity(b)
    ensures r.1 == Ok(1)
  {
    (b.(inner := b.inner + [x]), Ok(1))
  }

  /**
   * `pull_byte`: removes and returns the front byte. An empty buffer answers
   * `BufferTooSmall(0, 1)` and is left as it was.
   */
  function PullByte(b: VecBuf): (r: (VecBuf, Result<u8, BufferError>))
    ensures IsEmpty(b) ==> r == (b, Err(BufferTooSmall(0, 1)))
    ensures !IsEmpty(b) ==> r.1 == Ok(b.inner[0]) && r.0.inner == b.inner[1..]
    ensures Capacity(r.0) == Capacity(b)
    ensures Size(r.0) == if IsEmpty(b) then 0 else Size(b) - 1
  {
    if IsEmpty(b) then (b, Err(BufferTooSmall(0, 1)))
    else (b.(inner := b.inner[1..]), Ok(b.inner[0]))
  }

  /** The scsi crate's `Buffer::clear`: drops the content and keeps the reported capacity. */
  function Clear(b: VecBuf): (r: VecBuf)
    ensures IsEmpty(r) && Capacity(r) == Capacity(b)
  {
    b.(inner := [])
  }

  /** Queue law: on a non-empty buffer, pushing then pulling equals pulling then pushing. */
  lemma PushPullCommute(b: VecBuf, x: u8)
    requires !IsEmpty(b)
    ensures PullByte(PushByte(b, x).0) == (PushByte(PullByte(b).0, x).0, Ok(b.inner[0]))
  {
    assert (b.inner + [x])[1..] == b.inner[1..] + [x];
  }

  /** The byte pushed into an empty buffer is the byte pulled out, and the buffer is empty again. */
  lemma PushPullEmpty(b: VecBuf, x: u8)
    requires IsEmpty(b)
    ensures PullByte(PushByte(b, x).0) == (b, Ok(x))
  {
  }
}
