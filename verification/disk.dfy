/**
 * The simulated device: fixed 512-byte blocks addressed by block number.
 * Reading a block that was never written yields zeros, as a fresh
 * `new byte[512]` buffer would.
 */
module Disks {
  import opened Bytes

  const BlockSize: nat := 512

  type Block = s: seq<byte> | |s| == BlockSize witness seq(512, i => 0)

  type Disk = map<int, Block>

  function ZeroBlock(): (b: Block)
    ensures forall k :: 0 <= k < BlockSize ==> b[k] == 0
  {
    seq(BlockSize, i => 0)
  }

  /** SysLib.rawread. */
  function ReadBlock(d: Disk, n: int): Block
  {
    if n in d then d[n] else ZeroBlock()
  }

  /** SysLib.rawwrite: block `n` now reads back as `b`, no other block changes. */
  function WriteBlock(d: Disk, n: int, b: Block): (d': Disk)
    ensures ReadBlock(d', n) == b
    ensures forall m {:trigger ReadBlock(d', m)} :: m != n ==> ReadBlock(d', m) == ReadBlock(d, m)
  {
    d[n := b]
  }
}
