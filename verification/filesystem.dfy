/**
 * The file system calls over an open entry: seek, read and write of a
 * byte buffer, closing, opening (which truncates in mode "w"), and
 * deallocAllBlocks. Each call takes the state it reads (superblock,
 * directory, file table, disk) and returns the state it leaves, including
 * the partial state a failing write leaves behind.
 *
 * Mode strings are compared by content.
 */
module FileSystems {
  import opened Bytes
  import opened Disks
  import opened Options
  import opened Inodes
  import opened Directories
  import opened SuperBlocks
  import opened FileTables

  const SeekSet: int32 := 0
  const SeekCur: int32 := 1
  const SeekEnd: int32 := 2

  datatype FileSystem = FileSystem(sb: SuperBlock, dir: Directory, table: FileTable, disk: Disk)

  // ---------------------------------------------------------------------
  // seek

  /** The position a seek asks for, before clamping; int arithmetic wraps. */
  function SeekTarget(e: Entry, offset: int32, whence: int32): int32
  {
    if whence == SeekSet then offset
    else if whence == SeekCur then Wrap32(e.seekPtr + offset)
    else Wrap32(e.inode.length + offset)
  }

  /**
   * seek(offset, whence): move the pointer to the target clamped into
   * [0, length] and return it; an unknown whence returns -1 and moves
   * nothing.
   */
  function Seek(e: Entry, offset: int32, whence: int32): (r: (int32, Entry))
    ensures whence != SeekSet && whence != SeekCur && whence != SeekEnd ==> r == (-1, e)
    ensures whence == SeekSet || whence == SeekCur || whence == SeekEnd ==>
              var t := SeekTarget(e, offset, whence);
              var len := e.inode.length;
              && r.1 == e.(seekPtr := r.0)
              && (0 <= t <= len ==> r.0 == t)
              && (t < 0 && 0 <= len ==> r.0 == 0)
              && (t > len ==> r.0 == len)
              && (0 <= len ==> 0 <= r.0 <= len)
              && (len < 0 ==> r.0 == len)
  {
    if whence != SeekSet && whence != SeekCur && whence != SeekEnd then (-1, e)
    else
      var t := SeekTarget(e, offset, whence);
      var p := if t < 0 then 0 else t;
      var p' := if p > e.inode.length then e.inode.length else p;
      (p', e.(seekPtr := p'))
  }

  /** A position seek returned is kept by seeking to it, and by a relative seek of 0. */
  lemma SeekIdempotent(e: Entry, offset: int32, whence: int32)
    requires 0 <= e.inode.length
    requires whence == SeekSet || whence == SeekCur || whence == SeekEnd
    ensures var (p, e1) := Seek(e, offset, whence);
            && Seek(e1, p, SeekSet) == (p, e1)
            && Seek(e1, 0, SeekCur) == (p, e1)
  {
  }

  /** An entry opened for append already sits where seek(0, SEEK_END) puts it. */
  lemma AppendStartsAtEnd(handle: nat, ino: Inode, i: INumber)
    requires 0 <= ino.length
    ensures var e := NewEntry(handle, ino, i, "a");
            Seek(e, 0, SeekEnd) == (e.seekPtr, e)
  {
  }

  // ---------------------------------------------------------------------
  // read

  /** Byte `off` of a file: found through findTargetBlock, at off % 512 of that block. */
  function FileByte(ino: Inode, d: Disk, off: nat): byte
    requires ino.WellFormed() && off < MaxFileSize
  {
    ReadBlock(d, FindTargetBlock(ino, d, off))[off % 512]
  }

  /** Every block holding a byte of [lo, hi) is mapped. */
  predicate Mapped(ino: Inode, d: Disk, lo: nat, hi: int)
    requires ino.WellFormed() && hi <= MaxFileSize
  {
    forall off: nat :: lo <= off < hi ==> FindTargetBlock(ino, d, off) != -1
  }

  /** Offsets s .. s+j stay in the block of s while j < 512 - s % 512. */
  lemma SameBlock(s: nat, j: nat)
    requires j < BlockSize - s % 512
    ensures (s + j) / 512 == s / 512
    ensures (s + j) % 512 == s % 512 + j
  {
    var q := s / 512;
    var c := s % 512;
    assert s + j == 512 * q + (c + j);
  }

  /**
   * `out` is `buf` with indices [pos, n) holding the file's bytes from
   * offset s onward, and every other index unchanged.
   */
  predicate Filled(ino: Inode, d: Disk, s: nat, buf: seq<byte>, pos: nat, n: nat, out: seq<byte>)
    requires ino.WellFormed()
  {
    && pos <= n <= |buf| && |out| == |buf|
    && out[..pos] == buf[..pos] && out[n..] == buf[n..]
    && (n == pos || s + (n - pos) <= MaxFileSize)
    && forall k :: pos <= k < n ==> out[k] == FileByte(ino, d, s + (k - pos))
  }

  /**
   * The read loop from seek position `s`, filling buf from index `pos`:
   * it stops at the end of the file, at a full buffer, or at an unmapped
   * block. It returns the new fill index and buffer.
   */
  function ReadLoop(ino: Inode, d: Disk, s: nat, buf: seq<byte>, pos: nat): (r: (nat, seq<byte>))
    requires ino.WellFormed() && ino.length <= MaxFileSize && pos <= |buf|
    ensures Filled(ino, d, s, buf, pos, r.0, r.1)
    ensures r.0 - pos <= Max(0, ino.length - s)
    ensures Mapped(ino, d, s, Min(s + |buf| - pos, ino.length)) ==>
              r.0 - pos == Min(|buf| - pos, Max(0, ino.length - s))
    decreases |buf| - pos
  {
    if !(s < ino.length && |buf| - pos > 0) then (pos, buf)
    else
      var target := FindTargetBlock(ino, d, s);
      if target == -1 then (pos, buf)
      else
        var data := ReadBlock(d, target);
        var off := s % 512;
        var blockLeft := BlockSize - off;
        var fileLeft := ino.length - s;
        var size := if blockLeft < fileLeft then blockLeft else fileLeft;
        var size' := if size > |buf| - pos then |buf| - pos else size;
        var buf' := buf[..pos] + data[off..off + size'] + buf[pos + size'..];
        ChunkRead(ino, d, s, buf, pos, size', buf');
        var r := ReadLoop(ino, d, s + size', buf', pos + size');
        ReadJoin(ino, d, s, buf, pos, size', buf', r.0, r.1);
        r
  }

  /** The bytes of one iteration followed by those of the rest of the loop. */
  lemma ReadJoin(ino: Inode, d: Disk, s: nat, buf: seq<byte>, pos: nat, size: nat, buf': seq<byte>, n: nat, out: seq<byte>)
    requires ino.WellFormed()
    requires Filled(ino, d, s, buf, pos, pos + size, buf')
    requires Filled(ino, d, s + size, buf', pos + size, n, out)
    ensures Filled(ino, d, s, buf, pos, n, out)
  {
    forall k | pos <= k < n
      ensures out[k] == FileByte(ino, d, s + (k - pos))
    {
      if k < pos + size {
        assert out[k] == out[..pos + size][k] == buf'[k];
      } else {
        assert s + (k - pos) == (s + size) + (k - (pos + size));
      }
    }
    assert out[..pos] == out[..pos + size][..pos];
    assert buf'[n..] == buf'[pos + size..][n - (pos + size)..];
    assert buf[n..] == buf[pos + size..][n - (pos + size)..];
  }

  /** One read iteration copies bytes s .. s+size-1 of the file into buf at pos. */
  lemma ChunkRead(ino: Inode, d: Disk, s: nat, buf: seq<byte>, pos: nat, size: nat, buf': seq<byte>)
    requires ino.WellFormed() && s < MaxFileSize && pos + size <= |buf|
    requires size <= BlockSize - s % 512
    requires buf' == buf[..pos] + ReadBlock(d, FindTargetBlock(ino, d, s))[s % 512..s % 512 + size]
                     + buf[pos + size..]
    ensures Filled(ino, d, s, buf, pos, pos + size, buf')
  {
    assert s / 512 < MaxFileBlocks;
    forall k | pos <= k < pos + size
      ensures buf'[k] == FileByte(ino, d, s + (k - pos))
    {
      SameBlock(s, k - pos);
      assert FileBlock(s + (k - pos)) == FileBlock(s);
      assert FileBlock(s) < MaxFileBlocks;
    }
  }

  /**
   * read(e, buf): copy file bytes from the seek pointer into the front of
   * buf and advance the pointer by the count; modes "w" and "a" return -1.
   */
  function Read(e: Entry, d: Disk, buf: seq<byte>): (r: (int, seq<byte>, Entry))
    requires e.inode.WellFormed() && e.inode.length <= MaxFileSize && 0 <= e.seekPtr
    ensures e.mode == "w" || e.mode == "a" ==> r == (-1, buf, e)
    ensures e.mode != "w" && e.mode != "a" ==>
              && 0 <= r.0 <= Max(0, e.inode.length - e.seekPtr)
              && Filled(e.inode, d, e.seekPtr, buf, 0, r.0, r.1)
              && r.2 == e.(seekPtr := e.seekPtr + r.0)
              && (Mapped(e.inode, d, e.seekPtr, Min(e.seekPtr + |buf|, e.inode.length)) ==>
                    r.0 == Min(|buf|, Max(0, e.inode.length - e.seekPtr)))
  {
    if e.mode == "w" || e.mode == "a" then (-1, buf, e)
    else
      var r := ReadLoop(e.inode, d, e.seekPtr, buf, 0);
      (r.0, r.1, e.(seekPtr := e.seekPtr + r.0))
  }

  // ---------------------------------------------------------------------
  // write

  /** The block a write goes to, after allocating it if needed. */
  datatype Mapping = Mapping(ok: bool, loc: int16, sb: SuperBlock, disk: Disk, inode: Inode)

  /**
   * Find or allocate the block holding byte `s`. An unmapped byte takes a
   * free block; past the direct slots with no index block yet, a second
   * free block becomes the index block first. Free-block numbers are cast
   * to short, and -1 from an empty list is not checked.
   */
  function MapBlock(sb: SuperBlock, d: Disk, ino: Inode, s: nat): (r: Mapping)
    requires ino.WellFormed() && s < MaxFileSize
    ensures r.inode.WellFormed()
    ensures r.inode.length == ino.length && r.inode.count == ino.count && r.inode.flag == ino.flag
    ensures r.sb.totalBlocks == sb.totalBlocks
    ensures r.ok ==> FindTargetBlock(r.inode, r.disk, s) == r.loc
    ensures FindTargetBlock(ino, d, s) != -1 ==> r == Mapping(true, FindTargetBlock(ino, d, s), sb, d, ino)
  {
    var loc := FindTargetBlock(ino, d, s);
    if loc != -1 then Mapping(true, loc, sb, d, ino)
    else
      var (b, sb1) := GetFreeBlock(sb, d);
      var newLoc := Wrap16(b);
      var p := GetIndexBlockNumber(ino, d, s, newLoc);
      if p.code == NoIndexBlock then
        var (b2, sb2) := GetFreeBlock(sb1, d);
        var ix := SetIndexBlock(ino, d, Wrap16(b2));
        if !ix.ok then Mapping(false, newLoc, sb2, d, ino)
        else
          var p2 := GetIndexBlockNumber(ix.inode, ix.disk, s, newLoc);
          if p2.code != Assigned then Mapping(false, newLoc, sb2, p2.disk, p2.inode)
          else Mapping(true, newLoc, sb2, p2.disk, p2.inode)
      else if p.code == WouldLeaveGap || p.code == AlreadyMapped then Mapping(false, newLoc, sb1, d, ino)
      else Mapping(true, newLoc, sb1, p.disk, p.inode)
  }

  /**
   * What MapBlock does with an unmapped byte. The first free block, cast
   * to short, is the answer whether or not the list was empty (so an
   * empty list gives -1). In the direct range one block is popped and the
   * mapping fails only when it would leave a gap. Past it, with an index
   * block, one block is popped and the mapping succeeds. Past it without
   * one, a second block is popped for the index, and the mapping succeeds
   * exactly when every direct pointer is set, the pointer is -1 and the
   * second block, cast to short, is not negative.
   */
  lemma MapBlockAllocates(sb: SuperBlock, d: Disk, ino: Inode, s: nat)
    requires ino.WellFormed() && s < MaxFileSize && FindTargetBlock(ino, d, s) == -1
    ensures var r := MapBlock(sb, d, ino, s);
            var (b, sb1) := GetFreeBlock(sb, d);
            var t := FileBlock(s);
            && r.loc == Wrap16(b)
            && (t < DirectSize ==>
                  && r.sb == sb1
                  && (r.ok <==> t == 0 || ino.direct[t - 1] != -1))
            && (t >= DirectSize && ino.indirect >= 0 ==> r.sb == sb1 && r.ok)
            && (t >= DirectSize && ino.indirect < 0 ==>
                  && r.sb == GetFreeBlock(sb1, d).1
                  && (r.ok <==> && (forall k :: 0 <= k < DirectSize ==> ino.direct[k] != -1)
                                && ino.indirect == -1
                                && Wrap16(GetFreeBlock(sb1, d).0) >= 0))
  {
    var (b, sb1) := GetFreeBlock(sb, d);
    var t := FileBlock(s);
    if t >= DirectSize && ino.indirect < 0 {
      var (b2, sb2) := GetFreeBlock(sb1, d);
      var ix := SetIndexBlock(ino, d, Wrap16(b2));
      if ix.ok && Wrap16(b2) >= 0 {
        assert ReadBlock(ix.disk, Wrap16(b2)) == EmptyIndexBlock();
      }
    }
  }

  /**
   * Read-modify-write of block `loc`: `data` lands at `off`, every other
   * byte of the block and every other block is kept.
   */
  function CopyIntoBlock(d: Disk, loc: int, off: nat, data: seq<byte>): (d': Disk)
    requires off + |data| <= BlockSize
    ensures ReadBlock(d', loc)[off..off + |data|] == data
    ensures forall k {:trigger ReadBlock(d', loc)[k]} :: 0 <= k < BlockSize && !(off <= k < off + |data|) ==> ReadBlock(d', loc)[k] == ReadBlock(d, loc)[k]
    ensures forall m {:trigger ReadBlock(d', m)} :: m != loc ==> ReadBlock(d', m) == ReadBlock(d, m)
  {
    WriteBlock(d, loc, Splice(ReadBlock(d, loc), off, data))
  }

  /** Where a write has got to. */
  datatype Progress = Progress(ok: bool, sb: SuperBlock, disk: Disk, inode: Inode, seekPtr: nat, pos: nat)

  /** Bytes the current iteration copies: to the end of the block or of the buffer. */
  function ChunkSize(s: nat, remaining: nat): (m: nat)
    requires remaining > 0
    ensures 0 < m <= remaining && s % 512 + m <= BlockSize
    ensures m == remaining || (s + m) % 512 == 0
  {
    var diff := BlockSize - s % 512;
    if diff > remaining then remaining
    else
      SameBlock(s, diff - 1);
      diff
  }

  /** One iteration of the write loop: map the block of `s`, copy into it. */
  function WriteStep(sb: SuperBlock, d: Disk, ino: Inode, s: nat, buf: seq<byte>, pos: nat): (r: Progress)
    requires ino.WellFormed() && pos < |buf| && s + |buf| - pos <= MaxFileSize
    ensures r.inode.WellFormed()
    ensures r.inode.length == ino.length && r.inode.count == ino.count && r.inode.flag == ino.flag
    ensures r.sb.totalBlocks == sb.totalBlocks
    ensures !r.ok ==> r.pos == pos && r.seekPtr == s
    ensures r.ok ==> && r.pos == pos + ChunkSize(s, |buf| - pos)
                     && r.seekPtr == s + ChunkSize(s, |buf| - pos)
  {
    var mp := MapBlock(sb, d, ino, s);
    if !mp.ok then Progress(false, mp.sb, mp.disk, mp.inode, s, pos)
    else
      var m := ChunkSize(s, |buf| - pos);
      var d' := CopyIntoBlock(mp.disk, mp.loc, s % 512, buf[pos..pos + m]);
      Progress(true, mp.sb, d', mp.inode, s + m, pos + m)
  }

  /** The write loop: iterate until the buffer is used up or a block cannot be mapped. */
  function WriteLoop(sb: SuperBlock, d: Disk, ino: Inode, s: nat, buf: seq<byte>, pos: nat): (r: Progress)
    requires ino.WellFormed() && pos <= |buf| && s + |buf| - pos <= MaxFileSize
    ensures r.inode.WellFormed()
    ensures r.inode.length == ino.length && r.inode.count == ino.count && r.inode.flag == ino.flag
    ensures r.sb.totalBlocks == sb.totalBlocks
    ensures pos <= r.pos <= |buf| && r.seekPtr == s + r.pos - pos
    ensures r.ok ==> r.pos == |buf|
    decreases |buf| - pos
  {
    if pos >= |buf| then Progress(true, sb, d, ino, s, pos)
    else
      var st := WriteStep(sb, d, ino, s, buf, pos);
      if !st.ok then st
      else WriteLoop(st.sb, st.disk, st.inode, st.seekPtr, buf, st.pos)
  }

  /**
   * write(e, buf): copy buf into the file from the seek pointer, then
   * raise the length to the new pointer if it passed the end and persist
   * the inode. A null entry or mode "r" returns -1 with nothing changed; a
   * block that cannot be mapped returns -1 and leaves what was done so far
   * (blocks written, pointer moved, inode not persisted).
   */
  function Write(fs: FileSystem, e: Option<Entry>, buf: seq<byte>): (r: (int, FileSystem, Option<Entry>))
    requires e.Some? ==> e.value.inode.WellFormed() && 0 <= e.value.seekPtr && e.value.seekPtr + |buf| <= MaxFileSize
    ensures e.None? || e.value.mode == "r" ==> r == (-1, fs, e)
    ensures e.Some? && e.value.mode != "r" ==>
              && r.2.Some? && r.1.dir == fs.dir && r.1.table == fs.table
              && r.2.value == e.value.(seekPtr := r.2.value.seekPtr, inode := r.2.value.inode)
              && r.2.value.inode.WellFormed()
              && r.2.value.inode.count == e.value.inode.count && r.2.value.inode.flag == e.value.inode.flag
              && (r.0 == -1 || r.0 == |buf|)
              && (r.0 == |buf| ==>
                    && r.2.value.seekPtr == e.value.seekPtr + |buf|
                    && r.2.value.inode.length == Max(e.value.inode.length, e.value.seekPtr + |buf|)
                    && ReadInode(r.1.disk, e.value.iNumber) == r.2.value.inode)
              && (r.0 == -1 ==> r.2.value.inode.length == e.value.inode.length)
  {
    if e.None? || e.value.mode == "r" then (-1, fs, e)
    else Commit(fs, e.value, WriteLoop(fs.sb, fs.disk, e.value.inode, e.value.seekPtr, buf, 0), |buf|)
  }

  /**
   * The end of write, after the loop: on success the length rises to the
   * pointer if it passed the end and the inode is persisted; on failure
   * what the loop did stays, but the inode is not persisted.
   */
  function Commit(fs: FileSystem, x: Entry, st: Progress, n: int): (r: (int, FileSystem, Option<Entry>))
    requires st.inode.WellFormed() && st.seekPtr <= MaxFileSize
    ensures r.2.Some? && r.2.value == x.(seekPtr := st.seekPtr, inode := r.2.value.inode)
    ensures r.1 == fs.(sb := st.sb, disk := r.1.disk)
    ensures r.2.value.inode == st.inode.(length := r.2.value.inode.length) && r.2.value.inode.WellFormed()
    ensures st.ok ==> && r.0 == n
                      && r.2.value.inode.length == Max(st.inode.length, st.seekPtr)
                      && r.1.disk == WriteInode(st.disk, x.iNumber, r.2.value.inode)
    ensures !st.ok ==> r.0 == -1 && r.2.value.inode == st.inode && r.1.disk == st.disk
  {
    if !st.ok then (-1, fs.(sb := st.sb, disk := st.disk), Some(x.(seekPtr := st.seekPtr, inode := st.inode)))
    else
      var ino := st.inode.(length := if st.seekPtr > st.inode.length then st.seekPtr else st.inode.length);
      (n, fs.(sb := st.sb, disk := WriteInode(st.disk, x.iNumber, ino)), Some(x.(seekPtr := st.seekPtr, inode := ino)))
  }

  // ---------------------------------------------------------------------
  // deallocAllBlocks

  /** The free list after returnBlock(n): unchanged when the call fails. */
  ghost function NextPath(sb: SuperBlock, path: seq<int>, n: int): seq<int>
  {
    if 0 < n < sb.totalBlocks && sb.freeList != -1 then AfterReturn(path, n) else path
  }

  /** The free list after returning, for each set direct slot from b on, the slot's index. */
  ghost function ReturnedPath(sb: SuperBlock, path: seq<int>, direct: seq<int16>, b: nat): seq<int>
    requires b <= |direct|
    decreases |direct| - b
  {
    if b == |direct| then path
    else if direct[b] != -1 then ReturnedPath(sb, NextPath(sb, path, b), direct, b + 1)
    else ReturnedPath(sb, path, direct, b + 1)
  }

  /**
   * The direct-slot loop of deallocAllBlocks: for every slot b that is set,
   * returnBlock(b) is called with the slot's index b, not the block it holds.
   */
  function ReturnDirect(sb: SuperBlock, d: Disk, direct: seq<int16>, b: nat, ghost path: seq<int>): (r: Disk)
    requires b <= |direct| && IsChain(d, sb.freeList, path)
    ensures IsChain(r, sb.freeList, ReturnedPath(sb, path, direct, b))
    decreases |direct| - b
  {
    if b == |direct| then d
    else if direct[b] != -1 then
      var (_, d1) := ReturnBlock(sb, d, b, path);
      ReturnDirect(sb, d1, direct, b + 1, NextPath(sb, path, b))
    else ReturnDirect(sb, d, direct, b + 1, path)
  }

  /** The direct slots after the loop: all -1. */
  function Cleared(): (s: seq<int16>)
    ensures |s| == DirectSize && forall k :: 0 <= k < DirectSize ==> s[k] == -1
  {
    seq(DirectSize, k => -1)
  }

  /**
   * What deallocAllBlocks returns for the single user: true, the entry with
   * every direct slot -1 and no index block (an index number below -1 is
   * kept), and that inode persisted on the disk `d1` the direct loop left.
   */
  predicate Emptied(fs: FileSystem, e: Entry, d1: Disk, res: (bool, FileSystem, Entry))
    requires e.inode.WellFormed()
  {
    && res.0
    && res.2 == e.(inode := e.inode.(direct := Cleared(), indirect := Min(e.inode.indirect, -1)))
    && (e.inode.indirect >= -1 ==> NoBlocks(res.2.inode))
    && res.1 == fs.(disk := WriteInode(d1, e.iNumber, res.2.inode))
    && ReadInode(res.1.disk, e.iNumber) == res.2.inode
  }

  /**
   * deallocAllBlocks(e): only for an inode with exactly one user. It clears
   * the direct slots (returning slot indices, see ReturnDirect), frees the
   * indirect block and then returns blocks for as long as slot 0 of its old
   * contents is not -1 (for ever, since that slot never changes), and
   * persists the inode. The length is left as it was.
   */
  function DeallocAllBlocks(fs: FileSystem, e: Entry, ghost path: seq<int>): (r: Outcome<(bool, FileSystem, Entry)>)
    requires e.inode.WellFormed() && (e.inode.count == 1 ==> IsChain(fs.disk, fs.sb.freeList, path))
    ensures !r.Throws?
    ensures e.inode.count != 1 ==> r == Returns((false, fs, e))
    ensures e.inode.count == 1 ==>
              var d1 := ReturnDirect(fs.sb, fs.disk, e.inode.direct, 0, path);
              && (r.Loops? <==> e.inode.indirect >= 0 && ShortAt(ReadBlock(d1, e.inode.indirect), 0) != -1)
              && (r.Returns? ==> Emptied(fs, e, d1, r.value))
  {
    if e.inode.count != 1 then Returns((false, fs, e))
    else
      var d1 := ReturnDirect(fs.sb, fs.disk, e.inode.direct, 0, path);
      var data := FreeIndirectBlock(e.inode.(direct := Cleared()), d1).0;
      if data.Some? && ShortAt(data.value, 0) != -1 then Loops
      else Returns(Persist(fs, e, d1))
  }

  /** The end of deallocAllBlocks: the index block dropped and the inode written back. */
  function Persist(fs: FileSystem, e: Entry, d1: Disk): (r: (bool, FileSystem, Entry))
    requires e.inode.WellFormed()
    ensures Emptied(fs, e, d1, r)
  {
    var ino := FreeIndirectBlock(e.inode.(direct := Cleared()), d1).1;
    assert ino == e.inode.(direct := Cleared(), indirect := Min(e.inode.indirect, -1));
    (true, fs.(disk := WriteInode(d1, e.iNumber, ino)), e.(inode := ino))
  }

  /**
   * The slot-index quirk on a file of two direct blocks x0, x1 and no
   * index block: slot 0 is rejected by returnBlock (0 is not a valid block)
   * and slot 1 puts block 1 on the free list, so the list becomes the old
   * one followed by 1, and neither x0 nor x1 is freed.
   */
  lemma {:induction false} DeallocReturnsSlotIndex(fs: FileSystem, e: Entry, path: seq<int>)
    requires e.inode.WellFormed() && e.inode.count == 1 && e.inode.indirect == -1
    requires e.inode.direct[0] != -1 && e.inode.direct[1] != -1
    requires forall k :: 2 <= k < DirectSize ==> e.inode.direct[k] == -1
    requires IsChain(fs.disk, fs.sb.freeList, path) && |path| > 0 && 1 !in path && 1 < fs.sb.totalBlocks
    ensures DeallocAllBlocks(fs, e, path).Returns?
    ensures IsChain(ReturnDirect(fs.sb, fs.disk, e.inode.direct, 0, path), fs.sb.freeList, path + [1])
  {
    var dir := e.inode.direct;
    assert NextPath(fs.sb, path, 0) == path;
    assert NextPath(fs.sb, path, 1) == path + [1];
    assert ReturnedPath(fs.sb, path + [1], dir, 2) == path + [1] by {
      ReturnedPathIdle(fs.sb, path + [1], dir, 2);
    }
  }

  /** Slots that are all -1 return nothing. */
  lemma {:induction false} ReturnedPathIdle(sb: SuperBlock, path: seq<int>, direct: seq<int16>, b: nat)
    requires b <= |direct| && forall k :: b <= k < |direct| ==> direct[k] == -1
    ensures ReturnedPath(sb, path, direct, b) == path
    decreases |direct| - b
  {
    if b < |direct| {
      ReturnedPathIdle(sb, path, direct, b + 1);
    }
  }

  /**
   * With no direct block, the indirect walk ends exactly when slot 0 of the
   * index block is -1; otherwise the call never returns.
   */
  lemma {:induction false} DeallocEndsIffSlotZeroEmpty(fs: FileSystem, e: Entry, path: seq<int>)
    requires e.inode.WellFormed() && e.inode.count == 1 && IsChain(fs.disk, fs.sb.freeList, path)
    requires forall k :: 0 <= k < DirectSize ==> e.inode.direct[k] == -1
    requires e.inode.indirect >= 0
    ensures DeallocAllBlocks(fs, e, path).Loops? <==> ShortAt(ReadBlock(fs.disk, e.inode.indirect), 0) != -1
  {
    ReturnDirectIdle(fs.sb, fs.disk, e.inode.direct, 0, path);
  }

  /** Slots that are all -1 write nothing. */
  lemma {:induction false} ReturnDirectIdle(sb: SuperBlock, d: Disk, direct: seq<int16>, b: nat, path: seq<int>)
    requires b <= |direct| && IsChain(d, sb.freeList, path)
    requires forall k :: b <= k < |direct| ==> direct[k] == -1
    ensures ReturnDirect(sb, d, direct, b, path) == d
    decreases |direct| - b
  {
    if b < |direct| {
      ReturnDirectIdle(sb, d, direct, b + 1, path);
    }
  }

  // ---------------------------------------------------------------------
  // close, open

  /**
   * close(e): one user fewer on the entry; the last one frees it from the
   * table through ffree, whose answer close returns.
   */
  function Close(fs: FileSystem, e: Entry): (r: (bool, FileSystem, Entry))
    ensures r.2 == e.(count := Wrap32(e.count - 1))
    ensures r.2.count != 0 ==> r.0 && r.1 == fs
    ensures r.2.count == 0 ==>
              (r.0, r.1.table, r.1.disk) == Ffree(fs.table, fs.disk, r.2) && r.1.sb == fs.sb && r.1.dir == fs.dir
  {
    var e' := e.(count := Wrap32(e.count - 1));
    if e'.count == 0 then
      var (ok, t, d) := Ffree(fs.table, fs.disk, e');
      (ok, fs.(table := t, disk := d), e')
    else (true, fs, e')
  }

  /** The outcome of open. */
  datatype Opening =
    | Opened(entry: Entry, fs: FileSystem)
    | Null(fs: FileSystem)   // null: no such file in mode "r", or truncation refused
    | Waits                  // falloc waits for another thread
    | Spins                  // falloc loops without waiting
    | Raises                 // falloc throws
    | Hangs                  // truncation never returns

  /**
   * open(name, mode): falloc, then for mode "w" deallocAllBlocks on the new
   * entry. A refused truncation returns null but leaves falloc's entry and
   * inode update in place. `path` is the free list as truncation finds it.
   * falloc gets the whole name, so a name over 30 characters is never found
   * again once created (see FileTables.LongNameOpensTwice).
   */
  function Open(fs: FileSystem, name: string, mode: string, ghost path: seq<int>): (r: Opening)
    requires fs.dir.WellFormed()
    requires var a := Falloc(fs.table, fs.dir, fs.disk, name, mode);
             a.Granted? && mode == "w" ==> IsChain(a.disk, fs.sb.freeList, path)
    ensures var a := Falloc(fs.table, fs.dir, fs.disk, name, mode);
            && (a.Absent? <==> r.Null? && r.fs == fs)
            && (a.Blocked? <==> r.Waits?)
            && (a.Spinning? <==> r.Spins?)
            && (a.Raised? <==> r.Raises?)
            && (a.Granted? && mode != "w" ==> r == Opened(a.entry, FileSystem(fs.sb, a.dir, a.table, a.disk)))
            && (a.Granted? && mode == "w" ==>
                  (r.Opened? <==> a.entry.inode.count == 1 && !DeallocAllBlocks(FileSystem(fs.sb, a.dir, a.table, a.disk), a.entry, path).Loops?))
            && (r.Opened? && mode == "w" ==>
                  && r.entry.inode.direct == Cleared() && r.entry.inode.indirect < 0
                  && r.entry.inode.length == a.entry.inode.length)
  {
    var a := Falloc(fs.table, fs.dir, fs.disk, name, mode);
    match a
    case Absent => Null(fs)
    case Blocked => Waits
    case Spinning => Spins
    case Raised => Raises
    case Granted(e, t, dir, d) =>
      var fs1 := FileSystem(fs.sb, dir, t, d);
      if mode == "w" then Truncate(fs1, e, path) else Opened(e, fs1)
  }

  /** The "w" step of open: deallocAllBlocks, and null when it refuses. */
  function Truncate(fs: FileSystem, e: Entry, ghost path: seq<int>): (r: Opening)
    requires e.inode.WellFormed() && IsChain(fs.disk, fs.sb.freeList, path)
    ensures r.Opened? || r.Null? || r.Hangs?
    ensures r.Opened? <==> e.inode.count == 1 && !DeallocAllBlocks(fs, e, path).Loops?
    ensures r.Hangs? <==> DeallocAllBlocks(fs, e, path).Loops?
    ensures r.Opened? ==> && r.entry.inode.direct == Cleared() && r.entry.inode.indirect < 0
                          && r.entry.inode.length == e.inode.length
  {
    match DeallocAllBlocks(fs, e, path)
    case Returns((ok, fs2, e2)) => if ok then Opened(e2, fs2) else Null(fs2)
    case Throws => Raises
    case Loops => Hangs
  }

  /**
   * Opening a file that is not being truncated and closing it again gives
   * back the file table and the inode's user count.
   */
  lemma OpenThenClose(fs: FileSystem, name: string, mode: string, path: seq<int>)
    requires fs.dir.WellFormed() && fs.table.Valid() && mode != "w"
    requires Open(fs, name, mode, path).Opened?
    ensures var o := Open(fs, name, mode, path);
            var c := Close(o.fs, o.entry);
            && c.0 && c.1.table == fs.table.(nextHandle := fs.table.nextHandle + 1)
            && ReadInode(c.1.disk, o.entry.iNumber).count == ReadInode(fs.disk, o.entry.iNumber).count
  {
    var a := Falloc(fs.table, fs.dir, fs.disk, name, mode);
    var fs1 := FileSystem(fs.sb, a.dir, a.table, a.disk);
    assert Open(fs, name, mode, path) == Opened(a.entry, fs1);
    FallocThenFfree(fs.table, fs.dir, fs.disk, name, mode, a.entry.(count := 0));
    CloseLastUser(fs1, a.entry);
  }

  /** Closing an entry with one user frees it through ffree. */
  lemma CloseLastUser(fs: FileSystem, e: Entry)
    requires e.count == 1
    ensures var f := Ffree(fs.table, fs.disk, e.(count := 0));
            Close(fs, e) == (f.0, fs.(table := f.1, disk := f.2), e.(count := 0))
  {
  }
}
