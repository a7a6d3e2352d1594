/**
  User memory as the kernel sees it: a byte-addressed 32-bit address space.
  A word is four bytes, little-endian (x86). Addresses not in the map read
  as zero.
 */
module Memory {
  import opened Words

  type Mem = map<Word, Byte>

  function LoadByte(m: Mem, a: Word): Byte {
    if a in m then m[a] else 0
  }

  /** The `uint32_t` stored at `a`; only `a` itself is ever validated by the kernel. */
  function LoadWord(m: Mem, a: Word): Word {
    LoadByte(m, a)
    + 0x100 * LoadByte(m, AddrAdd(a, 1))
    + 0x1_0000 * LoadByte(m, AddrAdd(a, 2))
    + 0x100_0000 * LoadByte(m, AddrAdd(a, 3))
  }

  /** The `n` bytes starting at `a`, as `putbuf` or `file_write` would read them. */
  function ReadBytes(m: Mem, a: Word, n: nat): (r: seq<Byte>)
    ensures |r| == n
    ensures forall k :: 0 <= k < n ==> r[k] == LoadByte(m, AddrAdd(a, k))
  {
    seq(n, k requires 0 <= k < n => LoadByte(m, AddrAdd(a, k)))
  }

  /** Stores `bs` at `a`, `a+1`, ... in order, as the byte loop `buf[i++] = ch` does. */
  function StoreBytes(m: Mem, a: Word, bs: seq<Byte>): Mem
    decreases |bs|
  {
    if bs == [] then m
    else StoreBytes(m, a, bs[..|bs| - 1])[AddrAdd(a, |bs| - 1) := bs[|bs| - 1]]
  }

  /** Storing `bs` leaves every byte outside `a .. a+|bs|-1` as it was. */
  lemma {:induction false} StoreBytesFrame(m: Mem, a: Word, bs: seq<Byte>, x: Word)
    requires Offset(a, x) >= |bs|
    ensures LoadByte(StoreBytes(m, a, bs), x) == LoadByte(m, x)
    decreases |bs|
  {
    if bs != [] {
      var n := |bs|;
      OffsetOfAdd(a, n - 1);
      assert x != AddrAdd(a, n - 1);
      StoreBytesFrame(m, a, bs[..n - 1], x);
    }
  }

  /** Storing `bs` and reading back byte `k` of the stored range gives `bs[k]`. */
  lemma {:induction false} StoreBytesReadBack(m: Mem, a: Word, bs: seq<Byte>, k: nat)
    requires |bs| <= WORD_MOD
    requires k < |bs|
    ensures LoadByte(StoreBytes(m, a, bs), AddrAdd(a, k)) == bs[k]
    decreases |bs|
  {
    var n := |bs|;
    if k != n - 1 {
      OffsetOfAdd(a, k);
      OffsetOfAdd(a, n - 1);
      assert AddrAdd(a, k) != AddrAdd(a, n - 1);
      StoreBytesReadBack(m, a, bs[..n - 1], k);
    }
  }

  /** Reading back the whole stored range gives exactly the stored bytes. */
  lemma StoreThenRead(m: Mem, a: Word, bs: seq<Byte>)
    requires |bs| <= WORD_MOD
    ensures ReadBytes(StoreBytes(m, a, bs), a, |bs|) == bs
  {
    forall k | 0 <= k < |bs|
      ensures ReadBytes(StoreBytes(m, a, bs), a, |bs|)[k] == bs[k]
    {
      StoreBytesReadBack(m, a, bs, k);
    }
  }
}
