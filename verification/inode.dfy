/**
 * Inodes: the 32-byte on-disk file record (length, open count, flag,
 * eleven direct block pointers and one indirect pointer), sixteen records
 * per block starting at block 1, and the mapping from a byte offset of a
 * file to the block that holds it.
 */
module Inodes {
  import opened Bytes
  import opened Disks
  import opened Options

  const InodeSize: nat := 32
  const DirectSize: nat := 11
  const InodesPerBlock: nat := 16
  /** 16-bit block numbers held by one indirect (index) block. */
  const IndexSlots: nat := 256
  /** Blocks addressable through the direct and indirect pointers. */
  const MaxFileBlocks: nat := 267
  /** MaxFileBlocks * BlockSize bytes. */
  const MaxFileSize: nat := 136704

  datatype Inode = Inode(length: int32, count: int16, flag: int16, direct: seq<int16>, indirect: int16)
  {
    predicate WellFormed()
    {
      |direct| == DirectSize
    }
  }

  /** No direct pointer and no indirect pointer is set. */
  predicate NoBlocks(ino: Inode)
    requires ino.WellFormed()
  {
    && (forall k :: 0 <= k < DirectSize ==> ino.direct[k] == -1)
    && ino.indirect == -1
  }

  /** Direct pointers are filled left to right: a set slot has a set predecessor. */
  predicate GapFree(ino: Inode)
    requires ino.WellFormed()
  {
    forall k :: 0 < k < DirectSize && ino.direct[k] != -1 ==> ino.direct[k - 1] != -1
  }

  /** Inode(): an empty file record in the "used" state. */
  function NewInode(): (r: Inode)
    ensures r.WellFormed() && NoBlocks(r) && GapFree(r)
    ensures r.length == 0 && r.count == 0 && r.flag == 1
  {
    Inode(0, 0, 1, seq(DirectSize, k => -1), -1)
  }

  // ---------------------------------------------------------------------
  // The 32-byte record

  function EncodeShorts(s: seq<int16>): (r: seq<byte>)
    ensures |r| == 2 * |s|
  {
    if |s| == 0 then [] else ShortToBytes(s[0]) + EncodeShorts(s[1..])
  }

  function DecodeShorts(b: seq<byte>): (s: seq<int16>)
    requires |b| % 2 == 0
    ensures |s| == |b| / 2
  {
    if |b| == 0 then [] else [BytesToShort(b[..2])] + DecodeShorts(b[2..])
  }

  lemma {:induction false} ShortsRoundTrip(s: seq<int16>)
    ensures DecodeShorts(EncodeShorts(s)) == s
  {
    if |s| > 0 {
      var b := EncodeShorts(s);
      assert b[..2] == ShortToBytes(s[0]);
      assert b[2..] == EncodeShorts(s[1..]);
      ShortRoundTrip(s[0]);
      ShortsRoundTrip(s[1..]);
    }
  }

  lemma {:induction false} ShortsBytesRoundTrip(b: seq<byte>)
    requires |b| % 2 == 0
    ensures EncodeShorts(DecodeShorts(b)) == b
  {
    if |b| > 0 {
      var s := DecodeShorts(b);
      assert s[1..] == DecodeShorts(b[2..]);
      ShortBytesRoundTrip(b[..2]);
      ShortsBytesRoundTrip(b[2..]);
      assert b == b[..2] + b[2..];
    }
  }

  /** The record written by toDisk: length, count, flag, direct[0..10], indirect. */
  function EncodeInode(ino: Inode): (r: seq<byte>)
    requires ino.WellFormed()
    ensures |r| == InodeSize
  {
    IntToBytes(ino.length) + ShortToBytes(ino.count) + ShortToBytes(ino.flag)
      + EncodeShorts(ino.direct) + ShortToBytes(ino.indirect)
  }

  /** The fields read back by Inode(iNumber). */
  function DecodeInode(r: seq<byte>): (ino: Inode)
    requires |r| == InodeSize
    ensures ino.WellFormed()
  {
    Inode(BytesToInt(r[0..4]), BytesToShort(r[4..6]), BytesToShort(r[6..8]),
          DecodeShorts(r[8..30]), BytesToShort(r[30..32]))
  }

  lemma EncodeDecodeInode(ino: Inode)
    requires ino.WellFormed()
    ensures DecodeInode(EncodeInode(ino)) == ino
  {
    var r := EncodeInode(ino);
    assert r[0..4] == IntToBytes(ino.length);
    assert r[4..6] == ShortToBytes(ino.count);
    assert r[6..8] == ShortToBytes(ino.flag);
    assert r[8..30] == EncodeShorts(ino.direct);
    assert r[30..32] == ShortToBytes(ino.indirect);
    IntRoundTrip(ino.length);
    ShortRoundTrip(ino.count);
    ShortRoundTrip(ino.flag);
    ShortsRoundTrip(ino.direct);
    ShortRoundTrip(ino.indirect);
  }

  lemma DecodeEncodeInode(r: seq<byte>)
    requires |r| == InodeSize
    ensures EncodeInode(DecodeInode(r)) == r
  {
    IntBytesRoundTrip(r[0..4]);
    ShortBytesRoundTrip(r[4..6]);
    ShortBytesRoundTrip(r[6..8]);
    ShortsBytesRoundTrip(r[8..30]);
    ShortBytesRoundTrip(r[30..32]);
    assert r == r[0..4] + r[4..6] + r[6..8] + r[8..30] + r[30..32];
  }

  // ---------------------------------------------------------------------
  // Records on disk

  function InodeBlock(i: nat): nat
  {
    1 + i / 16
  }

  function InodeOffset(i: nat): (r: nat)
    ensures r + InodeSize <= BlockSize
  {
    (i % 16) * 32
  }

  /** Inode(iNumber): decode record `i` from its block. */
  function ReadInode(d: Disk, i: nat): (ino: Inode)
    ensures ino.WellFormed()
    ensures EncodeInode(ino) == ReadBlock(d, InodeBlock(i))[InodeOffset(i)..InodeOffset(i) + InodeSize]
  {
    var off := InodeOffset(i);
    var rec := ReadBlock(d, InodeBlock(i))[off..off + InodeSize];
    DecodeEncodeInode(rec);
    DecodeInode(rec)
  }

  /**
   * toDisk(iNumber): read-modify-write of record `i`. It reads back as
   * written, only its own 32 bytes of block 1 + i/16 change, and every
   * other record reads back as before.
   */
  function WriteInode(d: Disk, i: nat, ino: Inode): (d': Disk)
    requires ino.WellFormed()
    ensures ReadInode(d', i) == ino
    ensures forall n :: n != InodeBlock(i) ==> ReadBlock(d', n) == ReadBlock(d, n)
    ensures forall k :: 0 <= k < BlockSize && !(InodeOffset(i) <= k < InodeOffset(i) + InodeSize) ==>
              ReadBlock(d', InodeBlock(i))[k] == ReadBlock(d, InodeBlock(i))[k]
    ensures forall j: nat :: j != i ==> ReadInode(d', j) == ReadInode(d, j)
  {
    var blk := InodeBlock(i);
    var off := InodeOffset(i);
    var d' := WriteBlock(d, blk, Splice(ReadBlock(d, blk), off, EncodeInode(ino)));
    EncodeDecodeInode(ino);
    OtherRecordsKept(d, d', i);
    d'
  }

  lemma OtherRecordsKept(d: Disk, d': Disk, i: nat)
    requires forall n :: n != InodeBlock(i) ==> ReadBlock(d', n) == ReadBlock(d, n)
    requires forall k :: 0 <= k < BlockSize && !(InodeOffset(i) <= k < InodeOffset(i) + InodeSize) ==>
               ReadBlock(d', InodeBlock(i))[k] == ReadBlock(d, InodeBlock(i))[k]
    ensures forall j: nat :: j != i ==> ReadInode(d', j) == ReadInode(d, j)
  {
    forall j: nat | j != i
      ensures ReadInode(d', j) == ReadInode(d, j)
    {
      if InodeBlock(j) == InodeBlock(i) {
        var oj := InodeOffset(j);
        var b := ReadBlock(d, InodeBlock(j));
        var b' := ReadBlock(d', InodeBlock(j));
        assert j % 16 != i % 16;
        assert b'[oj..oj + InodeSize] == b[oj..oj + InodeSize];
      }
    }
  }

  // ---------------------------------------------------------------------
  // Offset to block mapping

  /** The block index inside the file that holds byte `off`. */
  function FileBlock(off: nat): nat
  {
    off / 512
  }

  /** findTargetBlock: block number holding byte `off`, or -1 when unmapped. */
  function FindTargetBlock(ino: Inode, d: Disk, off: nat): int16
    requires ino.WellFormed() && off < MaxFileSize
  {
    var t := FileBlock(off);
    if t < DirectSize then ino.direct[t]
    else if ino.indirect < 0 then -1
    else ShortAt(ReadBlock(d, ino.indirect), SlotOffset(t))
  }

  /**
   * The block holding an offset depends on nothing but the offset's file
   * block, the direct pointers and the contents of the index block: not on
   * length, count or flag, and not on any other block of the disk.
   */
  lemma TargetFrame(ino: Inode, d: Disk, ino': Inode, d': Disk, off: nat, off': nat)
    requires ino.WellFormed() && ino'.WellFormed() && off < MaxFileSize && off' < MaxFileSize
    requires FileBlock(off) == FileBlock(off')
    requires ino'.direct == ino.direct && ino'.indirect == ino.indirect
    requires ino.indirect < 0 || ReadBlock(d', ino.indirect) == ReadBlock(d, ino.indirect)
    ensures FindTargetBlock(ino', d', off') == FindTargetBlock(ino, d, off)
  {
  }

  /** Byte offset, inside the indirect block, of the slot for file block `t`. */
  function SlotOffset(t: nat): (r: nat)
    requires DirectSize <= t < MaxFileBlocks
    ensures r + 2 <= BlockSize
  {
    (t - DirectSize) * 2
  }

  lemma NewInodeMapsNothing(d: Disk, off: nat)
    requires off < MaxFileSize
    ensures FindTargetBlock(NewInode(), d, off) == -1
  {
  }

  /** The three-way error code of getIndexBlockNumber, and its success. */
  datatype PointerCode = Assigned | AlreadyMapped | WouldLeaveGap | NoIndexBlock
  {
    /** The integer the source returns for each case. */
    function Code(): int
    {
      match this
      case Assigned => 0
      case AlreadyMapped => -1
      case WouldLeaveGap => -2
      case NoIndexBlock => -3
    }
  }

  datatype Pointing = Pointing(code: PointerCode, inode: Inode, disk: Disk)

  /**
   * getIndexBlockNumber(entry, n): record block `n` as the block holding
   * byte `entry`, in a direct slot or in the indirect block.
   */
  function GetIndexBlockNumber(ino: Inode, d: Disk, entry: nat, n: int16): (r: Pointing)
    requires ino.WellFormed() && entry < MaxFileSize
    ensures r.inode.WellFormed()
    ensures r.inode == ino.(direct := r.inode.direct)
    ensures r.code != Assigned ==> r.inode == ino && r.disk == d
    ensures r.code == Assigned ==> FindTargetBlock(r.inode, r.disk, entry) == n
    ensures forall off: nat :: off < MaxFileSize && FileBlock(off) != FileBlock(entry) ==>
              FindTargetBlock(r.inode, r.disk, off) == FindTargetBlock(ino, d, off)
    ensures FileBlock(entry) < DirectSize ==>
              && r.disk == d
              && r.inode.indirect == ino.indirect
              && (r.code == AlreadyMapped <==> ino.direct[FileBlock(entry)] >= 0)
              && (r.code == WouldLeaveGap <==>
                    ino.direct[FileBlock(entry)] < 0 && FileBlock(entry) > 0 && ino.direct[FileBlock(entry) - 1] == -1)
              && r.code != NoIndexBlock
    ensures FileBlock(entry) >= DirectSize ==>
              && r.inode == ino
              && (forall m :: m != ino.indirect ==> ReadBlock(r.disk, m) == ReadBlock(d, m))
              && (r.code == NoIndexBlock <==> ino.indirect < 0)
              && (r.code == AlreadyMapped <==> ino.indirect >= 0 && FindTargetBlock(ino, d, entry) > 0)
              && r.code != WouldLeaveGap
  {
    var t := FileBlock(entry);
    if t < DirectSize then
      if ino.direct[t] >= 0 then Pointing(AlreadyMapped, ino, d)
      else if t > 0 && ino.direct[t - 1] == -1 then Pointing(WouldLeaveGap, ino, d)
      else Pointing(Assigned, ino.(direct := ino.direct[t := n]), d)
    else if ino.indirect < 0 then Pointing(NoIndexBlock, ino, d)
    else
      var blk := ReadBlock(d, ino.indirect);
      var slot := SlotOffset(t);
      if ShortAt(blk, slot) > 0 then Pointing(AlreadyMapped, ino, d)
      else
        var blk' := PutShort(blk, slot, n);
        var d' := WriteBlock(d, ino.indirect, blk');
        IndexSlotsKept(blk, blk', t);
        Pointing(Assigned, ino, d')
  }

  /** Writing the slot of file block `t` leaves every other slot as it was. */
  lemma IndexSlotsKept(blk: seq<byte>, blk': seq<byte>, t: nat)
    requires |blk| == BlockSize && |blk'| == BlockSize && DirectSize <= t < MaxFileBlocks
    requires forall k :: 0 <= k < |blk| && !(SlotOffset(t) <= k < SlotOffset(t) + 2) ==> blk'[k] == blk[k]
    ensures forall u :: DirectSize <= u < MaxFileBlocks && u != t ==>
              ShortAt(blk', SlotOffset(u)) == ShortAt(blk, SlotOffset(u))
  {
    forall u | DirectSize <= u < MaxFileBlocks && u != t
      ensures ShortAt(blk', SlotOffset(u)) == ShortAt(blk, SlotOffset(u))
    {
      ShortAtFrame(blk, blk', SlotOffset(u));
    }
  }

  /** Filling a slot with a real block number keeps the direct slots gap-free. */
  lemma GetIndexKeepsGapFree(ino: Inode, d: Disk, entry: nat, n: int16)
    requires ino.WellFormed() && entry < MaxFileSize && GapFree(ino) && n != -1
    ensures GapFree(GetIndexBlockNumber(ino, d, entry, n).inode)
  {
  }

  /** An index block: 256 shorts of -1. */
  function EmptyIndexBlock(): (b: Block)
    ensures forall t :: DirectSize <= t < MaxFileBlocks ==> ShortAt(b, SlotOffset(t)) == -1
  {
    var b: Block := seq(BlockSize, k => 255);
    forall t | DirectSize <= t < MaxFileBlocks
      ensures ShortAt(b, SlotOffset(t)) == -1
    {
      assert b[SlotOffset(t)..SlotOffset(t) + 2] == [255, 255];
      MinusOneShort();
    }
    b
  }

  datatype Indexing = Indexing(ok: bool, inode: Inode, disk: Disk)

  /**
   * setIndexBlock(n): install block `n` as the indirect block, legal only
   * once every direct slot is set and no indirect block exists.
   */
  function SetIndexBlock(ino: Inode, d: Disk, n: int16): (r: Indexing)
    requires ino.WellFormed()
    ensures r.inode.WellFormed()
    ensures r.ok <==> (forall k :: 0 <= k < DirectSize ==> ino.direct[k] != -1) && ino.indirect == -1
    ensures !r.ok ==> r.inode == ino && r.disk == d
    ensures r.ok ==> r.inode == ino.(indirect := n)
    ensures r.ok ==> forall m :: m != n ==> ReadBlock(r.disk, m) == ReadBlock(d, m)
    ensures r.ok ==> forall off: nat :: DirectSize * BlockSize <= off < MaxFileSize ==>
              FindTargetBlock(r.inode, r.disk, off) == -1
  {
    if -1 in ino.direct || ino.indirect != -1 then Indexing(false, ino, d)
    else Indexing(true, ino.(indirect := n), WriteBlock(d, n, EmptyIndexBlock()))
  }

  /**
   * freeIndirectBlock: hand back the indirect block's contents and clear
   * the pointer; null, with nothing changed, when there is none.
   */
  function FreeIndirectBlock(ino: Inode, d: Disk): (r: (Option<Block>, Inode))
    requires ino.WellFormed()
    ensures r.1.WellFormed()
    ensures r.0.Some? <==> ino.indirect >= 0
    ensures r.0.Some? ==> r.0.value == ReadBlock(d, ino.indirect) && r.1 == ino.(indirect := -1)
    ensures r.0.None? ==> r.1 == ino
  {
    if ino.indirect >= 0 then (Some(ReadBlock(d, ino.indirect)), ino.(indirect := -1))
    else (None, ino)
  }

  /** Freeing the indirect block twice: the second call finds nothing. */
  lemma FreeIndirectTwice(ino: Inode, d: Disk)
    requires ino.WellFormed()
    ensures FreeIndirectBlock(FreeIndirectBlock(ino, d).1, d).0 == None
  {
  }
}
