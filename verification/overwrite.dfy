/**
 * Writing over bytes whose blocks are already mapped: no block is
 * allocated, the free list is not touched, the written range reads back
 * as the buffer, and every other byte of the file reads as before.
 *
 * The range must sit in blocks that no other file block shares, that are
 * not the index block and that are not the block holding the file's own
 * inode record (which write rewrites last).
 */
module Overwrite {
  import opened Bytes
  import opened Disks
  import opened Options
  import opened Inodes
  import opened SuperBlocks
  import opened FileTables
  import opened FileSystems

  /**
   * Every byte of [lo, hi) is mapped to a block that is neither the index
   * block nor `own`, and that no byte of another file block maps to.
   */
  ghost predicate Placed(ino: Inode, d: Disk, lo: nat, hi: nat, own: int)
    requires ino.WellFormed() && hi <= MaxFileSize
  {
    forall w :: lo <= w < hi ==>
      && FindTargetBlock(ino, d, w) != -1
      && FindTargetBlock(ino, d, w) as int != ino.indirect as int
      && FindTargetBlock(ino, d, w) as int != own
      && forall o: nat :: o < MaxFileSize && FileBlock(o) != FileBlock(w) ==>
           FindTargetBlock(ino, d, o) != FindTargetBlock(ino, d, w)
  }

  /** The blocks the bytes of [lo, hi) live in. */
  ghost function Targets(ino: Inode, d: Disk, lo: nat, hi: nat): set<int>
    requires ino.WellFormed() && hi <= MaxFileSize
  {
    set w | lo <= w < hi :: FindTargetBlock(ino, d, w) as int
  }

  /** Byte `w` of the file laid out as on `d0`, read from the blocks of `d`. */
  function At(ino: Inode, d0: Disk, d: Disk, w: nat): byte
    requires ino.WellFormed() && w < MaxFileSize
  {
    ReadBlock(d, FindTargetBlock(ino, d0, w))[w % 512]
  }

  /**
   * Midway through the overwrite, at position s: the index block is as it
   * was, bytes lo .. s-1 hold the buffer, every other byte is as on `d0`,
   * and only blocks of bytes lo .. s-1 have changed.
   */
  ghost predicate Overwritten(ino: Inode, d0: Disk, d: Disk, lo: nat, s: nat, buf: seq<byte>)
    requires ino.WellFormed() && lo <= s <= lo + |buf| <= MaxFileSize
  {
    && (ino.indirect < 0 || ReadBlock(d, ino.indirect) == ReadBlock(d0, ino.indirect))
    && (forall w :: lo <= w < s ==> At(ino, d0, d, w) == buf[w - lo])
    && (forall o: nat :: o < MaxFileSize && !(lo <= o < s) ==> At(ino, d0, d, o) == At(ino, d0, d0, o))
    && (forall n :: n !in Targets(ino, d0, lo, s) ==> ReadBlock(d, n) == ReadBlock(d0, n))
  }

  /** Two offsets in the same file block sit in the same order inside the block. */
  lemma InBlock(o: nat, s: nat, m: nat)
    requires FileBlock(o) == FileBlock(s) && s % 512 + m <= BlockSize
    ensures (s <= o < s + m) <==> (s % 512 <= o % 512 < s % 512 + m)
  {
    var q := FileBlock(s);
    assert o == 512 * q + o % 512;
    assert s == 512 * q + s % 512;
  }

  /**
   * Copying m bytes into the block of s at s % 512 leaves every byte
   * outside [s, s+m) as it was, since no other file block shares that block.
   */
  lemma ByteKept(ino: Inode, d0: Disk, d: Disk, lo: nat, hi: nat, own: int, s: nat, data: seq<byte>, o: nat)
    requires ino.WellFormed() && hi <= MaxFileSize && Placed(ino, d0, lo, hi, own)
    requires lo <= s < hi && o < MaxFileSize && !(s <= o < s + |data|) && s % 512 + |data| <= BlockSize
    ensures At(ino, d0, CopyIntoBlock(d, FindTargetBlock(ino, d0, s), s % 512, data), o) == At(ino, d0, d, o)
  {
    var b := FindTargetBlock(ino, d0, s);
    if FindTargetBlock(ino, d0, o) == b {
      assert FileBlock(o) == FileBlock(s);
      InBlock(o, s, |data|);
    }
  }

  /** Copying the chunk at s puts it at bytes s .. s+m-1. */
  lemma ChunkLands(ino: Inode, d0: Disk, d: Disk, s: nat, data: seq<byte>, w: nat)
    requires ino.WellFormed() && s <= w < s + |data| && s + |data| <= MaxFileSize && s % 512 + |data| <= BlockSize
    ensures At(ino, d0, CopyIntoBlock(d, FindTargetBlock(ino, d0, s), s % 512, data), w) == data[w - s]
  {
    var b := FindTargetBlock(ino, d0, s);
    var d' := CopyIntoBlock(d, b, s % 512, data);
    SameBlock(s, w - s);
    TargetFrame(ino, d0, ino, d0, s, w);
    assert ReadBlock(d', b)[s % 512..s % 512 + |data|][w - s] == data[w - s];
  }

  /** After copying the chunk at s, bytes lo .. s+m-1 hold the buffer. */
  lemma CopyFills(ino: Inode, d0: Disk, d: Disk, d': Disk, lo: nat, buf: seq<byte>, pos: nat, m: nat, own: int)
    requires ino.WellFormed() && lo + |buf| <= MaxFileSize && pos + m <= |buf| && pos < |buf|
    requires (lo + pos) % 512 + m <= BlockSize
    requires Placed(ino, d0, lo, lo + |buf|, own)
    requires forall w :: lo <= w < lo + pos ==> At(ino, d0, d, w) == buf[w - lo]
    requires d' == CopyIntoBlock(d, FindTargetBlock(ino, d0, lo + pos), (lo + pos) % 512, buf[pos..pos + m])
    ensures forall w :: lo <= w < lo + pos + m ==> At(ino, d0, d', w) == buf[w - lo]
  {
    var s := lo + pos;
    var data := buf[pos..pos + m];
    forall w | lo <= w < s + m
      ensures At(ino, d0, CopyIntoBlock(d, FindTargetBlock(ino, d0, s), s % 512, data), w) == buf[w - lo]
    {
      if w < s {
        ByteKept(ino, d0, d, lo, lo + |buf|, own, s, data, w);
      } else {
        ChunkLands(ino, d0, d, s, data, w);
      }
    }
  }

  /** After copying the chunk at s, bytes outside lo .. s+m-1 are as on d0. */
  lemma CopyKeepsOthers(ino: Inode, d0: Disk, d: Disk, d': Disk, lo: nat, buf: seq<byte>, pos: nat, m: nat, own: int)
    requires ino.WellFormed() && lo + |buf| <= MaxFileSize && pos + m <= |buf| && pos < |buf|
    requires (lo + pos) % 512 + m <= BlockSize
    requires Placed(ino, d0, lo, lo + |buf|, own)
    requires forall o: nat :: o < MaxFileSize && !(lo <= o < lo + pos) ==> At(ino, d0, d, o) == At(ino, d0, d0, o)
    requires d' == CopyIntoBlock(d, FindTargetBlock(ino, d0, lo + pos), (lo + pos) % 512, buf[pos..pos + m])
    ensures forall o: nat :: o < MaxFileSize && !(lo <= o < lo + pos + m) ==> At(ino, d0, d', o) == At(ino, d0, d0, o)
  {
    var s := lo + pos;
    forall o: nat | o < MaxFileSize && !(lo <= o < s + m)
      ensures At(ino, d0, CopyIntoBlock(d, FindTargetBlock(ino, d0, s), s % 512, buf[pos..pos + m]), o) == At(ino, d0, d0, o)
    {
      ByteKept(ino, d0, d, lo, lo + |buf|, own, s, buf[pos..pos + m], o);
    }
  }

  /** A longer range lives in at least the blocks of a shorter one. */
  lemma TargetsGrow(ino: Inode, d: Disk, lo: nat, s: nat, s': nat)
    requires ino.WellFormed() && s <= s' <= MaxFileSize
    ensures Targets(ino, d, lo, s) <= Targets(ino, d, lo, s')
  {
  }

  /** After copying the chunk at s, only blocks of bytes lo .. s+m-1 differ from d0. */
  lemma CopyKeepsBlocks(ino: Inode, d0: Disk, d: Disk, d': Disk, lo: nat, s: nat, hi: nat, data: seq<byte>)
    requires ino.WellFormed() && lo <= s && hi == s + |data| <= MaxFileSize && 0 < |data| && s % 512 + |data| <= BlockSize
    requires forall n :: n !in Targets(ino, d0, lo, s) ==> ReadBlock(d, n) == ReadBlock(d0, n)
    requires d' == CopyIntoBlock(d, FindTargetBlock(ino, d0, s), s % 512, data)
    ensures forall n :: n !in Targets(ino, d0, lo, hi) ==> ReadBlock(d', n) == ReadBlock(d0, n)
  {
    TargetsGrow(ino, d0, lo, s, hi);
    assert FindTargetBlock(ino, d0, s) as int in Targets(ino, d0, lo, hi);
  }

  /** Copying the chunk at lo + pos into its block, giving d', extends the overwritten range to hi. */
  lemma CopyOverwrites(ino: Inode, d0: Disk, d: Disk, d': Disk, lo: nat, s: nat, hi: nat, buf: seq<byte>, pos: nat, own: int)
    requires ino.WellFormed() && lo + |buf| <= MaxFileSize && pos < |buf| && s == lo + pos
    requires Placed(ino, d0, lo, lo + |buf|, own) && Overwritten(ino, d0, d, lo, s, buf)
    requires hi == s + ChunkSize(s, |buf| - pos)
    requires d' == CopyIntoBlock(d, FindTargetBlock(ino, d, s), s % 512, buf[pos..pos + ChunkSize(s, |buf| - pos)])
    ensures Overwritten(ino, d0, d', lo, hi, buf)
  {
    var m := ChunkSize(s, |buf| - pos);
    var loc := FindTargetBlock(ino, d0, s);
    TargetFrame(ino, d0, ino, d, s, s);
    assert loc as int != ino.indirect as int;
    assert ino.indirect < 0 || ReadBlock(d', ino.indirect) == ReadBlock(d0, ino.indirect);
    CopyFills(ino, d0, d, d', lo, buf, pos, m, own);
    CopyKeepsOthers(ino, d0, d, d', lo, buf, pos, m, own);
    CopyKeepsBlocks(ino, d0, d, d', lo, s, hi, buf[pos..pos + m]);
  }

  /** The loop with the buffer used up changes nothing. */
  lemma {:induction false} LoopEnds(sb: SuperBlock, d: Disk, ino: Inode, s: nat, buf: seq<byte>, pos: nat)
    requires ino.WellFormed() && pos == |buf| && s <= MaxFileSize
    ensures WriteLoop(sb, d, ino, s, buf, pos) == Progress(true, sb, d, ino, s, pos)
  {
  }

  /** Where a write loop started at `lo` must end: every byte of `buf` in place, nothing allocated. */
  ghost predicate Ends(r: Progress, sb: SuperBlock, ino: Inode, d0: Disk, lo: nat, buf: seq<byte>)
    requires ino.WellFormed() && lo + |buf| <= MaxFileSize
  {
    && r.ok && r.sb == sb && r.inode == ino && r.seekPtr == lo + |buf|
    && Overwritten(ino, d0, r.disk, lo, lo + |buf|, buf)
  }

  /** An iteration over a mapped block allocates nothing and only copies its chunk. */
  lemma StepCopies(sb: SuperBlock, d: Disk, ino: Inode, s: nat, buf: seq<byte>, pos: nat)
    requires ino.WellFormed() && pos < |buf| && s + |buf| - pos <= MaxFileSize
    requires FindTargetBlock(ino, d, s) != -1
    ensures var st := WriteStep(sb, d, ino, s, buf, pos);
            var m := ChunkSize(s, |buf| - pos);
            && st.ok && st.sb == sb && st.inode == ino && st.seekPtr == s + m && st.pos == pos + m
            && st.disk == CopyIntoBlock(d, FindTargetBlock(ino, d, s), s % 512, buf[pos..pos + m])
  {
  }

  /** A successful iteration hands over to the loop from where it stopped. */
  lemma {:induction false} LoopContinues(sb: SuperBlock, d: Disk, ino: Inode, s: nat, buf: seq<byte>, pos: nat)
    requires ino.WellFormed() && pos < |buf| && s + |buf| - pos <= MaxFileSize
    requires WriteStep(sb, d, ino, s, buf, pos).ok
    ensures var st := WriteStep(sb, d, ino, s, buf, pos);
            WriteLoop(sb, d, ino, s, buf, pos) == WriteLoop(st.sb, st.disk, st.inode, st.seekPtr, buf, st.pos)
  {
  }

  /** One iteration over a mapped block, at s = lo + pos, extends the overwritten range by its chunk. */
  lemma StepOverwrites(sb: SuperBlock, d0: Disk, d: Disk, ino: Inode, lo: nat, s: nat, buf: seq<byte>, pos: nat, own: int)
    requires ino.WellFormed() && lo + |buf| <= MaxFileSize && pos < |buf| && s == lo + pos
    requires Placed(ino, d0, lo, lo + |buf|, own) && Overwritten(ino, d0, d, lo, s, buf)
    ensures var st := WriteStep(sb, d, ino, s, buf, pos);
            && st.ok && st.sb == sb && st.inode == ino && st.seekPtr == lo + st.pos && pos < st.pos <= |buf|
            && Overwritten(ino, d0, st.disk, lo, st.seekPtr, buf)
  {
    assert FindTargetBlock(ino, d, s) == FindTargetBlock(ino, d0, s) by {
      TargetFrame(ino, d0, ino, d, s, s);
    }
    StepCopies(sb, d, ino, s, buf, pos);
    var st := WriteStep(sb, d, ino, s, buf, pos);
    assert Overwritten(ino, d0, st.disk, lo, st.seekPtr, buf) by {
      CopyOverwrites(ino, d0, d, st.disk, lo, s, st.seekPtr, buf, pos, own);
    }
  }

  /** The whole write loop over mapped blocks, from s = lo + pos. */
  lemma {:induction false} LoopOverwrites(sb: SuperBlock, d0: Disk, d: Disk, ino: Inode, lo: nat, s: nat, buf: seq<byte>, pos: nat, own: int)
    requires ino.WellFormed() && lo + |buf| <= MaxFileSize && pos <= |buf| && s == lo + pos
    requires Placed(ino, d0, lo, lo + |buf|, own) && Overwritten(ino, d0, d, lo, s, buf)
    ensures Ends(WriteLoop(sb, d, ino, s, buf, pos), sb, ino, d0, lo, buf)
    decreases |buf| - pos
  {
    if pos < |buf| {
      StepOverwrites(sb, d0, d, ino, lo, s, buf, pos, own);
      LoopContinues(sb, d, ino, s, buf, pos);
      var st := WriteStep(sb, d, ino, s, buf, pos);
      LoopOverwrites(sb, d0, st.disk, ino, lo, st.seekPtr, buf, st.pos, own);
    } else {
      LoopEnds(sb, d, ino, s, buf, pos);
    }
  }

  /**
   * After the inode record is written to block `own`, the bytes the loop
   * wrote read back as the buffer.
   */
  lemma CommitReads(ino: Inode, ino': Inode, d0: Disk, d: Disk, d': Disk, lo: nat, buf: seq<byte>, own: int)
    requires ino.WellFormed() && ino'.WellFormed() && lo + |buf| <= MaxFileSize
    requires ino'.direct == ino.direct && ino'.indirect == ino.indirect
    requires ino.indirect as int != own && Placed(ino, d0, lo, lo + |buf|, own)
    requires Overwritten(ino, d0, d, lo, lo + |buf|, buf)
    requires forall n :: n != own ==> ReadBlock(d', n) == ReadBlock(d, n)
    ensures forall j :: 0 <= j < |buf| ==> FileByte(ino', d', lo + j) == buf[j]
  {
    forall j | 0 <= j < |buf|
      ensures FileByte(ino', d', lo + j) == buf[j]
    {
      TargetFrame(ino, d0, ino', d', lo + j, lo + j);
      assert At(ino, d0, d, lo + j) == buf[lo + j - lo];
    }
  }

  /**
   * After the inode record is written to block `own`, the file reads as
   * it did before the loop outside the bytes written, except for bytes
   * stored in `own` itself, and only the blocks written and `own` change.
   */
  lemma CommitKeeps(ino: Inode, ino': Inode, d0: Disk, d: Disk, d': Disk, lo: nat, buf: seq<byte>, own: int)
    requires ino.WellFormed() && ino'.WellFormed() && lo + |buf| <= MaxFileSize
    requires ino'.direct == ino.direct && ino'.indirect == ino.indirect
    requires ino.indirect as int != own && Placed(ino, d0, lo, lo + |buf|, own)
    requires Overwritten(ino, d0, d, lo, lo + |buf|, buf)
    requires forall n :: n != own ==> ReadBlock(d', n) == ReadBlock(d, n)
    ensures forall o: nat :: o < MaxFileSize && !(lo <= o < lo + |buf|) && FindTargetBlock(ino, d0, o) as int != own ==>
              FileByte(ino', d', o) == FileByte(ino, d0, o)
    ensures forall n :: n != own && n !in Targets(ino, d0, lo, lo + |buf|) ==> ReadBlock(d', n) == ReadBlock(d0, n)
  {
    forall o: nat | o < MaxFileSize && !(lo <= o < lo + |buf|) && FindTargetBlock(ino, d0, o) as int != own
      ensures FileByte(ino', d', o) == FileByte(ino, d0, o)
    {
      TargetFrame(ino, d0, ino', d', o, o);
      assert At(ino, d0, d, o) == At(ino, d0, d0, o);
      assert ReadBlock(d', FindTargetBlock(ino, d0, o)) == ReadBlock(d, FindTargetBlock(ino, d0, o));
    }
  }

  /** The write loop over mapped blocks takes the whole buffer and allocates nothing. */
  lemma {:induction false} LoopAllocatesNothing(sb: SuperBlock, d0: Disk, ino: Inode, lo: nat, buf: seq<byte>, own: int)
    requires ino.WellFormed() && lo + |buf| <= MaxFileSize && Placed(ino, d0, lo, lo + |buf|, own)
    ensures var st := WriteLoop(sb, d0, ino, lo, buf, 0);
            st.ok && st.sb == sb && st.inode == ino && st.seekPtr == lo + |buf|
  {
    LoopOverwrites(sb, d0, d0, ino, lo, lo, buf, 0, own);
  }

  /**
   * The write loop over mapped blocks followed by any change confined to
   * block `own` that keeps the block pointers: the result reads as the
   * buffer over lo .. lo+|buf|-1.
   */
  lemma {:induction false} LoopThenReads(sb: SuperBlock, d0: Disk, ino: Inode, ino': Inode, d': Disk, lo: nat, buf: seq<byte>, own: int)
    requires ino.WellFormed() && ino'.WellFormed() && lo + |buf| <= MaxFileSize
    requires ino'.direct == ino.direct && ino'.indirect == ino.indirect
    requires ino.indirect as int != own && Placed(ino, d0, lo, lo + |buf|, own)
    requires forall n :: n != own ==> ReadBlock(d', n) == ReadBlock(WriteLoop(sb, d0, ino, lo, buf, 0).disk, n)
    ensures forall j :: 0 <= j < |buf| ==> FileByte(ino', d', lo + j) == buf[j]
  {
    LoopOverwrites(sb, d0, d0, ino, lo, lo, buf, 0, own);
    var st := WriteLoop(sb, d0, ino, lo, buf, 0);
    CommitReads(ino, ino', d0, st.disk, d', lo, buf, own);
  }

  /**
   * The same loop and change: the result reads as before outside
   * lo .. lo+|buf|-1 except for bytes stored in `own`, and no block but
   * the blocks written and `own` changes.
   */
  lemma {:induction false} LoopThenKeeps(sb: SuperBlock, d0: Disk, ino: Inode, ino': Inode, d': Disk, lo: nat, buf: seq<byte>, own: int)
    requires ino.WellFormed() && ino'.WellFormed() && lo + |buf| <= MaxFileSize
    requires ino'.direct == ino.direct && ino'.indirect == ino.indirect
    requires ino.indirect as int != own && Placed(ino, d0, lo, lo + |buf|, own)
    requires forall n :: n != own ==> ReadBlock(d', n) == ReadBlock(WriteLoop(sb, d0, ino, lo, buf, 0).disk, n)
    ensures forall o: nat :: o < MaxFileSize && !(lo <= o < lo + |buf|) && FindTargetBlock(ino, d0, o) as int != own ==>
              FileByte(ino', d', o) == FileByte(ino, d0, o)
    ensures forall n :: n != own && n !in Targets(ino, d0, lo, lo + |buf|) ==> ReadBlock(d', n) == ReadBlock(d0, n)
  {
    LoopOverwrites(sb, d0, d0, ino, lo, lo, buf, 0, own);
    var st := WriteLoop(sb, d0, ino, lo, buf, 0);
    CommitKeeps(ino, ino', d0, st.disk, d', lo, buf, own);
  }

  /** What write does after a loop that took the whole buffer. */
  lemma {:induction false} WriteCommits(fs: FileSystem, e: Entry, buf: seq<byte>)
    requires e.mode != "r" && e.inode.WellFormed()
    requires 0 <= e.seekPtr && e.seekPtr + |buf| <= MaxFileSize
    requires WriteLoop(fs.sb, fs.disk, e.inode, e.seekPtr as nat, buf, 0).ok
    ensures var st := WriteLoop(fs.sb, fs.disk, e.inode, e.seekPtr as nat, buf, 0);
            var w := Write(fs, Some(e), buf);
            && w.0 == |buf| && w.1.sb == st.sb && w.2.Some?
            && w.2.value.inode == st.inode.(length := Max(st.inode.length, st.seekPtr))
            && w.2.value.seekPtr == st.seekPtr
            && forall n :: n != InodeBlock(e.iNumber) ==> ReadBlock(w.1.disk, n) == ReadBlock(st.disk, n)
  {
  }

  /**
   * write(e, buf) over bytes that are already mapped, each file block to a
   * block of its own: it returns the full count and allocates nothing (the
   * superblock, and with it the head of the free list, is unchanged).
   */
  lemma WriteOverwrites(fs: FileSystem, e: Entry, buf: seq<byte>)
    requires e.mode != "r" && e.inode.WellFormed()
    requires 0 <= e.seekPtr && e.seekPtr + |buf| <= MaxFileSize
    requires Placed(e.inode, fs.disk, e.seekPtr as nat, e.seekPtr + |buf|, InodeBlock(e.iNumber))
    ensures var w := Write(fs, Some(e), buf);
            && w.0 == |buf| && w.1.sb == fs.sb && w.2.Some?
            && w.2.value.inode == e.inode.(length := Max(e.inode.length, e.seekPtr + |buf|))
            && w.2.value.seekPtr == e.seekPtr + |buf|
  {
    LoopAllocatesNothing(fs.sb, fs.disk, e.inode, e.seekPtr as nat, buf, InodeBlock(e.iNumber));
    WriteCommits(fs, e, buf);
  }

  /**
   * write over mapped blocks keeps the block pointers and changes nothing
   * outside the record block but what the write loop changed.
   */
  lemma WriteKeepsPointers(fs: FileSystem, e: Entry, buf: seq<byte>)
    requires e.mode != "r" && e.inode.WellFormed()
    requires 0 <= e.seekPtr && e.seekPtr + |buf| <= MaxFileSize
    requires Placed(e.inode, fs.disk, e.seekPtr as nat, e.seekPtr + |buf|, InodeBlock(e.iNumber))
    ensures var w := Write(fs, Some(e), buf);
            && w.2.Some? && w.2.value.inode.WellFormed()
            && w.2.value.inode.direct == e.inode.direct && w.2.value.inode.indirect == e.inode.indirect
            && forall n :: n != InodeBlock(e.iNumber) ==>
                 ReadBlock(w.1.disk, n) == ReadBlock(WriteLoop(fs.sb, fs.disk, e.inode, e.seekPtr, buf, 0).disk, n)
  {
    LoopAllocatesNothing(fs.sb, fs.disk, e.inode, e.seekPtr, buf, InodeBlock(e.iNumber));
    WriteCommits(fs, e, buf);
  }

  /** The same write: the bytes written read back as buf. */
  lemma WriteReadsBack(fs: FileSystem, e: Entry, buf: seq<byte>)
    requires e.mode != "r" && e.inode.WellFormed()
    requires 0 <= e.seekPtr && e.seekPtr + |buf| <= MaxFileSize
    requires Placed(e.inode, fs.disk, e.seekPtr as nat, e.seekPtr + |buf|, InodeBlock(e.iNumber))
    requires e.inode.indirect as int != InodeBlock(e.iNumber)
    ensures var w := Write(fs, Some(e), buf);
            && w.2.Some?
            && forall j :: 0 <= j < |buf| ==> FileByte(w.2.value.inode, w.1.disk, e.seekPtr + j) == buf[j]
  {
    WriteKeepsPointers(fs, e, buf);
    var w := Write(fs, Some(e), buf);
    LoopThenReads(fs.sb, fs.disk, e.inode, w.2.value.inode, w.1.disk, e.seekPtr, buf, InodeBlock(e.iNumber));
  }

  /**
   * The same write leaves every other byte that does not live in the
   * inode's record block as it was, and changes no block but the blocks
   * written and the record block.
   */
  lemma WriteKeepsTheRest(fs: FileSystem, e: Entry, buf: seq<byte>)
    requires e.mode != "r" && e.inode.WellFormed()
    requires 0 <= e.seekPtr && e.seekPtr + |buf| <= MaxFileSize
    requires Placed(e.inode, fs.disk, e.seekPtr as nat, e.seekPtr + |buf|, InodeBlock(e.iNumber))
    requires e.inode.indirect as int != InodeBlock(e.iNumber)
    ensures var w := Write(fs, Some(e), buf);
            && w.2.Some?
            && (forall o: nat ::
                  (o < MaxFileSize && !(e.seekPtr <= o < e.seekPtr + |buf|)
                   && FindTargetBlock(e.inode, fs.disk, o) as int != InodeBlock(e.iNumber)) ==>
                  FileByte(w.2.value.inode, w.1.disk, o) == FileByte(e.inode, fs.disk, o))
            && (forall n :: n != InodeBlock(e.iNumber) && n !in Targets(e.inode, fs.disk, e.seekPtr as nat, e.seekPtr + |buf|) ==>
                  ReadBlock(w.1.disk, n) == ReadBlock(fs.disk, n))
  {
    WriteKeepsPointers(fs, e, buf);
    var w := Write(fs, Some(e), buf);
    LoopThenKeeps(fs.sb, fs.disk, e.inode, w.2.value.inode, w.1.disk, e.seekPtr, buf, InodeBlock(e.iNumber));
  }
}
