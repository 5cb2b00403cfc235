/**
 * Writing a buffer to an empty file from offset 0, seeking back to 0 and
 * reading as many bytes gives the buffer back, provided the free list
 * holds enough blocks.
 *
 * The write takes its blocks from the head of the free list in order: the
 * t-th file block is the t-th free block, except that the 13th free block
 * becomes the index block the moment the 12th file block is needed, so
 * file blocks from the 12th on come one place later.
 */
module WriteRead {
  import opened Bytes
  import opened Disks
  import opened Options
  import opened Inodes
  import opened SuperBlocks
  import opened FileTables
  import opened FileSystems

  /** Place in the free list of the block that holds file block t. */
  function Index(t: nat): nat
  {
    if t <= DirectSize then t else t + 1
  }

  /** The index block: the 13th block of the free list. */
  const IndexAt: nat := DirectSize + 1

  /** The block holding file block t. */
  function DataBlock(path: seq<int>, t: nat): int
  {
    if Index(t) < |path| then path[Index(t)] else -1
  }

  /** Number of file blocks that hold bytes 0 .. n-1. */
  function Touched(n: nat): nat
  {
    (n + 511) / 512
  }

  /** Every listed block is one getFreeBlock hands out and fits a short. */
  predicate Usable(path: seq<int>, total: int)
  {
    forall k :: 0 <= k < |path| ==> 0 < path[k] < total && path[k] < 0x8000
  }

  predicate Distinct(path: seq<int>)
  {
    forall i, j :: 0 <= i < j < |path| ==> path[i] != path[j]
  }

  /** After T file blocks: exactly blocks 0..T-1 are mapped, to the free list's blocks in order. */
  predicate Maps(path: seq<int>, ino: Inode, d: Disk, T: nat)
    requires ino.WellFormed()
  {
    forall off: nat :: off < MaxFileSize ==>
      FindTargetBlock(ino, d, off) == (if FileBlock(off) < T then DataBlock(path, FileBlock(off)) else -1)
  }

  /** The allocation state after T file blocks. */
  predicate Allocated(path: seq<int>, total: int, sb: SuperBlock, d: Disk, ino: Inode, T: nat)
  {
    && ino.WellFormed() && sb.totalBlocks == total && Index(T) <= |path|
    && IsChain(d, sb.freeList, path[Index(T)..])
    && Maps(path, ino, d, T)
    && ino.indirect == (if T <= DirectSize then -1 else path[IndexAt])
  }

  /** Bytes 0 .. s-1 of buf sit in their data blocks. */
  ghost predicate Holds(path: seq<int>, buf: seq<byte>, d: Disk, s: nat)
  {
    s <= |buf| &&
    forall t: nat, c: nat :: c < 512 && 512 * t + c < s ==>
      ReadBlock(d, DataBlock(path, t))[c] == buf[512 * t + c]
  }

  lemma FileBlockOf(t: nat, c: nat)
    requires c < 512
    ensures FileBlock(512 * t + c) == t && (512 * t + c) % 512 == c
  {
  }

  lemma TouchedOf(T: nat, n: nat)
    requires 512 * T < n <= 512 * T + 512
    ensures Touched(n) == T + 1
  {
  }

  /** The head of a non-empty list is popped by getFreeBlock, and the rest is still a list. */
  lemma {:induction false} Pop(path: seq<int>, total: int, sb: SuperBlock, d: Disk, u: nat)
    requires Usable(path, total) && sb.totalBlocks == total && u < |path|
    requires IsChain(d, sb.freeList, path[u..])
    ensures GetFreeBlock(sb, d).0 == path[u] && Wrap16(path[u]) == path[u]
    ensures GetFreeBlock(sb, d).1.totalBlocks == total
    ensures IsChain(d, GetFreeBlock(sb, d).1.freeList, path[u + 1..])
  {
    assert path[u..][1..] == path[u + 1..];
  }

  /** The rest of the list survives writes to blocks not on it. */
  lemma {:induction false} TailSurvives(path: seq<int>, d: Disk, d': Disk, head: int, u: nat)
    requires u <= |path| && IsChain(d, head, path[u..])
    requires forall k :: u <= k < |path| ==> ReadBlock(d', path[k]) == ReadBlock(d, path[k])
    ensures IsChain(d', head, path[u..])
  {
    forall k | 0 <= k < |path[u..]|
      ensures Link(d', path[u..][k]) == Link(d, path[u..][k])
    {
      assert path[u..][k] == path[u + k];
    }
    ChainFrame(d, d', head, path[u..]);
  }

  /** Mapping facts depend on the disk only through the index block. */
  lemma MapsFrame(path: seq<int>, ino: Inode, d: Disk, d': Disk, T: nat)
    requires ino.WellFormed() && Maps(path, ino, d, T)
    requires ino.indirect < 0 || ReadBlock(d', ino.indirect) == ReadBlock(d, ino.indirect)
    ensures Maps(path, ino, d', T)
  {
    forall off: nat | off < MaxFileSize
      ensures FindTargetBlock(ino, d', off) == FindTargetBlock(ino, d, off)
    {
    }
  }

  /** A data block below the next one is none of the blocks taken since. */
  lemma DataBlocksApart(path: seq<int>, t: nat, T: nat)
    requires Distinct(path) && t < T && Index(T) < |path|
    ensures DataBlock(path, t) != DataBlock(path, T)
    ensures T > DirectSize ==> DataBlock(path, t) != path[IndexAt]
  {
  }

  /** Mapping file block T (T < 11): one block off the list into direct slot T. */
  lemma MapDirect(path: seq<int>, total: int, sb: SuperBlock, d: Disk, ino: Inode, T: nat)
    requires Usable(path, total) && Distinct(path)
    requires Allocated(path, total, sb, d, ino, T) && T < DirectSize && Index(T + 1) <= |path|
    ensures var mp := MapBlock(sb, d, ino, 512 * T);
            && mp.ok && mp.loc == DataBlock(path, T) && mp.disk == d
            && Allocated(path, total, mp.sb, mp.disk, mp.inode, T + 1)
  {
    var s := 512 * T;
    FileBlockOf(T, 0);
    Pop(path, total, sb, d, T);
    if T > 0 {
      FileBlockOf(T - 1, 0);
      assert ino.direct[T - 1] == FindTargetBlock(ino, d, 512 * (T - 1));
    }
    var p := GetIndexBlockNumber(ino, d, s, path[T]);
    assert p.code == Assigned;
    forall off: nat | off < MaxFileSize
      ensures FindTargetBlock(p.inode, p.disk, off) ==
                (if FileBlock(off) < T + 1 then DataBlock(path, FileBlock(off)) else -1)
    {
    }
  }

  /** Mapping file block 11: the first indirect block, after installing the index block. */
  lemma MapFirstIndirect(path: seq<int>, total: int, sb: SuperBlock, d: Disk, ino: Inode)
    requires Usable(path, total) && Distinct(path)
    requires Allocated(path, total, sb, d, ino, DirectSize) && Index(DirectSize + 1) <= |path|
    ensures var mp := MapBlock(sb, d, ino, 512 * DirectSize);
            && mp.ok && mp.loc == DataBlock(path, DirectSize)
            && Allocated(path, total, mp.sb, mp.disk, mp.inode, DirectSize + 1)
            && forall m :: m != path[IndexAt] ==> ReadBlock(mp.disk, m) == ReadBlock(d, m)
  {
    var s := 512 * DirectSize;
    FileBlockOf(DirectSize, 0);
    Pop(path, total, sb, d, DirectSize);
    var sb1 := GetFreeBlock(sb, d).1;
    Pop(path, total, sb1, d, IndexAt);
    var sb2 := GetFreeBlock(sb1, d).1;
    var p := GetIndexBlockNumber(ino, d, s, path[DirectSize]);
    assert p.code == NoIndexBlock;
    IndexInstalled(path, total, sb, d, ino);
    var ix := SetIndexBlock(ino, d, path[IndexAt]);
    var p2 := GetIndexBlockNumber(ix.inode, ix.disk, s, path[DirectSize]);
    assert p2.code == Assigned;
    assert MapBlock(sb, d, ino, s) == Mapping(true, path[DirectSize], sb2, p2.disk, p2.inode);
    forall off: nat | off < MaxFileSize
      ensures FindTargetBlock(p2.inode, p2.disk, off) ==
                (if FileBlock(off) < DirectSize + 1 then DataBlock(path, FileBlock(off)) else -1)
    {
    }
    TailSurvives(path, d, p2.disk, sb2.freeList, IndexAt + 1);
  }

  /** With the direct slots full, setIndexBlock installs list block 12 and keeps the mapping. */
  lemma IndexInstalled(path: seq<int>, total: int, sb: SuperBlock, d: Disk, ino: Inode)
    requires Usable(path, total) && Distinct(path)
    requires Allocated(path, total, sb, d, ino, DirectSize) && Index(DirectSize + 1) <= |path|
    ensures var ix := SetIndexBlock(ino, d, path[IndexAt]);
            && ix.ok
            && forall off: nat :: off < MaxFileSize ==>
                 FindTargetBlock(ix.inode, ix.disk, off) ==
                   (if FileBlock(off) < DirectSize then DataBlock(path, FileBlock(off)) else -1)
  {
    forall k | 0 <= k < DirectSize
      ensures ino.direct[k] != -1
    {
      FileBlockOf(k, 0);
      assert ino.direct[k] == FindTargetBlock(ino, d, 512 * k);
    }
    var ix := SetIndexBlock(ino, d, path[IndexAt]);
    assert ix.ok;
    forall off: nat | off < MaxFileSize
      ensures FindTargetBlock(ix.inode, ix.disk, off) ==
                (if FileBlock(off) < DirectSize then DataBlock(path, FileBlock(off)) else -1)
    {
      if FileBlock(off) < DirectSize {
        assert FindTargetBlock(ix.inode, ix.disk, off) == FindTargetBlock(ino, d, off);
      }
    }
  }

  /** Mapping file block T > 11: one block off the list into slot T of the index block. */
  lemma MapIndirect(path: seq<int>, total: int, sb: SuperBlock, d: Disk, ino: Inode, T: nat)
    requires Usable(path, total) && Distinct(path)
    requires Allocated(path, total, sb, d, ino, T) && DirectSize < T < MaxFileBlocks && Index(T + 1) <= |path|
    ensures var mp := MapBlock(sb, d, ino, 512 * T);
            && mp.ok && mp.loc == DataBlock(path, T)
            && Allocated(path, total, mp.sb, mp.disk, mp.inode, T + 1)
            && forall m :: m != path[IndexAt] ==> ReadBlock(mp.disk, m) == ReadBlock(d, m)
  {
    var s := 512 * T;
    FileBlockOf(T, 0);
    Pop(path, total, sb, d, T + 1);
    var p := GetIndexBlockNumber(ino, d, s, path[T + 1]);
    assert p.code == Assigned;
    forall off: nat | off < MaxFileSize
      ensures FindTargetBlock(p.inode, p.disk, off) ==
                (if FileBlock(off) < T + 1 then DataBlock(path, FileBlock(off)) else -1)
    {
    }
    TailSurvives(path, d, p.disk, GetFreeBlock(sb, d).1.freeList, T + 2);
  }

  /** Mapping file block T, whichever kind of slot it needs. */
  lemma MapStep(path: seq<int>, total: int, sb: SuperBlock, d: Disk, ino: Inode, T: nat)
    requires Usable(path, total) && Distinct(path)
    requires Allocated(path, total, sb, d, ino, T) && T < MaxFileBlocks && Index(T + 1) <= |path|
    ensures var mp := MapBlock(sb, d, ino, 512 * T);
            && mp.ok && mp.loc == DataBlock(path, T)
            && Allocated(path, total, mp.sb, mp.disk, mp.inode, T + 1)
            && forall m :: (T < DirectSize || m != path[IndexAt]) ==> ReadBlock(mp.disk, m) == ReadBlock(d, m)
  {
    if T < DirectSize {
      MapDirect(path, total, sb, d, ino, T);
    } else if T == DirectSize {
      MapFirstIndirect(path, total, sb, d, ino);
    } else {
      MapIndirect(path, total, sb, d, ino, T);
    }
  }

  /** Writing a data block just mapped keeps the allocation state: it is neither on the list nor the index block. */
  lemma CopyKeepsAllocation(path: seq<int>, total: int, sb: SuperBlock, d: Disk, d': Disk, ino: Inode, T: nat, loc: int)
    requires Distinct(path) && Allocated(path, total, sb, d, ino, T + 1) && loc == DataBlock(path, T)
    requires forall m :: m != loc ==> ReadBlock(d', m) == ReadBlock(d, m)
    ensures Allocated(path, total, sb, d', ino, T + 1)
  {
    assert DataBlock(path, T) == path[Index(T)];
    TailSurvives(path, d, d', sb.freeList, Index(T + 1));
    if T + 1 > DirectSize {
      assert DataBlock(path, T) != path[IndexAt];
    }
    MapsFrame(path, ino, d, d', T + 1);
  }

  /** Copying the chunk for block T to the front of its data block adds its bytes to those already held. */
  lemma CopyExtendsHolds(path: seq<int>, buf: seq<byte>, d0: Disk, d: Disk, d': Disk, T: nat, m: nat, loc: int)
    requires Distinct(path) && Index(T + 1) <= |path| && Holds(path, buf, d0, 512 * T)
    requires forall b :: (T < DirectSize || b != path[IndexAt]) ==> ReadBlock(d, b) == ReadBlock(d0, b)
    requires 0 < m <= 512 && 512 * T + m <= |buf| && loc == DataBlock(path, T)
    requires forall b :: b != loc ==> ReadBlock(d', b) == ReadBlock(d, b)
    requires forall c :: 0 <= c < m ==> ReadBlock(d', loc)[c] == buf[512 * T + c]
    ensures Holds(path, buf, d', 512 * T + m)
  {
    forall t: nat | t < T
      ensures ReadBlock(d', DataBlock(path, t)) == ReadBlock(d0, DataBlock(path, t))
    {
      DataBlocksApart(path, t, T);
    }
    HoldsExtend(path, buf, d0, d', T, m);
  }

  /** Earlier blocks kept and block T's first m bytes written: the bytes held grow by m. */
  lemma HoldsExtend(path: seq<int>, buf: seq<byte>, d0: Disk, d': Disk, T: nat, m: nat)
    requires Holds(path, buf, d0, 512 * T) && 0 < m <= 512 && 512 * T + m <= |buf|
    requires forall t: nat :: t < T ==> ReadBlock(d', DataBlock(path, t)) == ReadBlock(d0, DataBlock(path, t))
    requires forall c: nat :: c < m ==> ReadBlock(d', DataBlock(path, T))[c] == buf[512 * T + c]
    ensures Holds(path, buf, d', 512 * T + m)
  {
    forall t: nat, c: nat | c < 512 && 512 * t + c < 512 * T + m
      ensures ReadBlock(d', DataBlock(path, t))[c] == buf[512 * t + c]
    {
      if t < T {
        assert ReadBlock(d0, DataBlock(path, t))[c] == buf[512 * t + c];
      } else {
        assert t == T;
      }
    }
  }

  /** Copying bytes s .. s+|data|-1 of buf to the front of block loc puts them there. */
  lemma CopyFront(d: Disk, loc: int, data: seq<byte>, buf: seq<byte>, s: nat)
    requires |data| <= BlockSize && s + |data| <= |buf|
    requires forall c :: 0 <= c < |data| ==> data[c] == buf[s + c]
    ensures forall c :: 0 <= c < |data| ==> ReadBlock(CopyIntoBlock(d, loc, 0, data), loc)[c] == buf[s + c]
  {
    var d' := CopyIntoBlock(d, loc, 0, data);
    forall c | 0 <= c < |data|
      ensures ReadBlock(d', loc)[c] == buf[s + c]
    {
      assert ReadBlock(d', loc)[0..|data|][c] == data[c];
    }
  }

  /** One iteration of the write loop at s = 512 T keeps the allocation state and adds the chunk's bytes. */
  lemma Step(path: seq<int>, total: int, buf: seq<byte>, sb: SuperBlock, d: Disk, ino: Inode, T: nat)
    requires Usable(path, total) && Distinct(path) && |buf| <= MaxFileSize
    requires Allocated(path, total, sb, d, ino, T) && Holds(path, buf, d, 512 * T)
    requires 512 * T < |buf| && Index(T + 1) <= |path|
    ensures var st := WriteStep(sb, d, ino, 512 * T, buf, 512 * T);
            && st.ok && st.pos == st.seekPtr && st.pos <= 512 * (T + 1)
            && (st.pos == |buf| || st.pos == 512 * (T + 1))
            && Allocated(path, total, st.sb, st.disk, st.inode, T + 1)
            && Holds(path, buf, st.disk, st.pos)
  {
    FileBlockOf(T, 0);
    MapStep(path, total, sb, d, ino, T);
    StepUnfolds(sb, d, ino, 512 * T, buf);
    AfterCopy(path, total, buf, d, MapBlock(sb, d, ino, 512 * T), T);
  }

  /** The copy half of an iteration, once block T is mapped. */
  lemma AfterCopy(path: seq<int>, total: int, buf: seq<byte>, d0: Disk, mp: Mapping, T: nat)
    requires Distinct(path) && Holds(path, buf, d0, 512 * T)
    requires 512 * T < |buf| && Index(T + 1) <= |path|
    requires mp.loc == DataBlock(path, T) && Allocated(path, total, mp.sb, mp.disk, mp.inode, T + 1)
    requires forall b :: (T < DirectSize || b != path[IndexAt]) ==> ReadBlock(mp.disk, b) == ReadBlock(d0, b)
    ensures var m := ChunkSize(512 * T, |buf| - 512 * T);
            var d' := CopyIntoBlock(mp.disk, mp.loc, 0, buf[512 * T..512 * T + m]);
            && (m == |buf| - 512 * T || m == 512)
            && Allocated(path, total, mp.sb, d', mp.inode, T + 1)
            && Holds(path, buf, d', 512 * T + m)
  {
    FileBlockOf(T, 0);
    var m := ChunkSize(512 * T, |buf| - 512 * T);
    CopyFront(mp.disk, mp.loc, buf[512 * T..512 * T + m], buf, 512 * T);
    var d' := CopyIntoBlock(mp.disk, mp.loc, 0, buf[512 * T..512 * T + m]);
    CopyKeepsAllocation(path, total, mp.sb, mp.disk, d', mp.inode, T, mp.loc);
    CopyExtendsHolds(path, buf, d0, mp.disk, d', T, m, mp.loc);
  }

  /** A step at a block boundary whose block maps copies its chunk to the front of that block. */
  lemma StepUnfolds(sb: SuperBlock, d: Disk, ino: Inode, s: nat, buf: seq<byte>)
    requires ino.WellFormed() && s < |buf| <= MaxFileSize && s % 512 == 0
    ensures var mp := MapBlock(sb, d, ino, s);
            var m := ChunkSize(s, |buf| - s);
            mp.ok ==>
              WriteStep(sb, d, ino, s, buf, s)
                == Progress(true, mp.sb, CopyIntoBlock(mp.disk, mp.loc, 0, buf[s..s + m]), mp.inode, s + m, s + m)
  {
  }

  /** The state at the top of an iteration at s = 512 T: blocks 0..T-1 mapped and filled. */
  ghost predicate Midway(path: seq<int>, total: int, buf: seq<byte>, sb: SuperBlock, d: Disk, ino: Inode, T: nat, s: nat)
  {
    && Usable(path, total) && Distinct(path) && |buf| <= MaxFileSize && s == 512 * T
    && Allocated(path, total, sb, d, ino, T) && Holds(path, buf, d, s)
    && Index(Touched(|buf|)) <= |path|
  }

  /** The whole write loop from s = 512 T: it maps every file block the buffer needs. */
  lemma {:induction false} Loop(path: seq<int>, total: int, buf: seq<byte>, sb: SuperBlock, d: Disk, ino: Inode, T: nat, s: nat)
    requires Midway(path, total, buf, sb, d, ino, T, s)
    ensures Finished(path, total, buf, WriteLoop(sb, d, ino, s, buf, s))
    decreases |buf| - s, 1
  {
    if s >= |buf| {
      Done(path, total, buf, sb, d, ino, T, s);
    } else {
      Advance(path, total, buf, sb, d, ino, T, s);
    }
  }

  /** Where the write loop ends: the whole buffer written, every block it needs mapped. */
  ghost predicate Finished(path: seq<int>, total: int, buf: seq<byte>, r: Progress)
  {
    match r
    case Progress(ok, sb, disk, inode, seekPtr, _) =>
      && ok && seekPtr == |buf| && inode.WellFormed()
      && Allocated(path, total, sb, disk, inode, Touched(|buf|))
      && Holds(path, buf, disk, |buf|)
  }

  /** The loop entered with nothing left to write is already finished. */
  lemma {:induction false} Done(path: seq<int>, total: int, buf: seq<byte>, sb: SuperBlock, d: Disk, ino: Inode, T: nat, s: nat)
    requires Midway(path, total, buf, sb, d, ino, T, s) && s >= |buf|
    ensures Finished(path, total, buf, WriteLoop(sb, d, ino, s, buf, s))
  {
    TouchedExact(T);
    LoopDone(sb, d, ino, s, buf);
    FinishAt(path, total, buf, Progress(true, sb, d, ino, s, s), T);
  }

  /** The state the loop stops in is its intended end. */
  lemma FinishAt(path: seq<int>, total: int, buf: seq<byte>, r: Progress, T: nat)
    requires r.ok && r.pos == |buf| && r.seekPtr == |buf| && Touched(|buf|) == T
    requires Allocated(path, total, r.sb, r.disk, r.inode, T) && Holds(path, buf, r.disk, |buf|)
    ensures Finished(path, total, buf, r)
  {
  }

  /** One iteration of the loop, which either ends it or hands over to the rest of the loop at s + 512. */
  lemma {:induction false} Advance(path: seq<int>, total: int, buf: seq<byte>, sb: SuperBlock, d: Disk, ino: Inode, T: nat, s: nat)
    requires Midway(path, total, buf, sb, d, ino, T, s) && s < |buf|
    ensures Finished(path, total, buf, WriteLoop(sb, d, ino, s, buf, s))
    decreases |buf| - s, 0
  {
    TouchedMonotone(T + 1, |buf|);
    Step(path, total, buf, sb, d, ino, T);
    var st := WriteStep(sb, d, ino, s, buf, s);
    LoopUnfolds(sb, d, ino, s, buf);
    if st.pos == |buf| {
      TouchedOf(T, |buf|);
      LoopDone(st.sb, st.disk, st.inode, st.pos, buf);
      FinishAt(path, total, buf, Progress(true, st.sb, st.disk, st.inode, st.pos, st.pos), T + 1);
    } else {
      Loop(path, total, buf, st.sb, st.disk, st.inode, T + 1, st.pos);
    }
  }

  /** The write loop stops once the buffer is used up. */
  lemma {:induction false} LoopDone(sb: SuperBlock, d: Disk, ino: Inode, s: nat, buf: seq<byte>)
    requires ino.WellFormed() && s == |buf| <= MaxFileSize
    ensures WriteLoop(sb, d, ino, s, buf, s) == Progress(true, sb, d, ino, s, s)
  {
  }

  /** A successful iteration hands over to the loop from the new position. */
  lemma {:induction false} LoopUnfolds(sb: SuperBlock, d: Disk, ino: Inode, s: nat, buf: seq<byte>)
    requires ino.WellFormed() && s < |buf| <= MaxFileSize
    requires WriteStep(sb, d, ino, s, buf, s).ok
    ensures var st := WriteStep(sb, d, ino, s, buf, s);
            st.seekPtr == st.pos &&
            WriteLoop(sb, d, ino, s, buf, s) == WriteLoop(st.sb, st.disk, st.inode, st.pos, buf, st.pos)
  {
  }

  lemma TouchedExact(T: nat)
    ensures Touched(512 * T) == T
  {
  }

  lemma TouchedMonotone(T: nat, n: nat)
    requires 512 * (T - 1) < n
    ensures Index(T) <= Index(Touched(n))
  {
  }

  lemma BlockBelow(k: nat, T: nat)
    requires k < 512 * T
    ensures FileBlock(k) < T && k == 512 * FileBlock(k) + k % 512 && k % 512 < 512
  {
  }

  /**
   * Once the blocks are mapped and filled, the file reads back the buffer,
   * also after the inode's length changes and after writes to blocks that
   * are not on the list.
   */
  lemma FileHolds(path: seq<int>, total: int, buf: seq<byte>, ino: Inode, ino': Inode, d: Disk, d': Disk, T: nat)
    requires Usable(path, total) && ino.WellFormed() && ino'.WellFormed()
    requires ino'.direct == ino.direct && ino'.indirect == ino.indirect
    requires Maps(path, ino, d, T) && Holds(path, buf, d, |buf|) && Index(T) <= |path|
    requires ino.indirect == -1 || ino.indirect in path
    requires |buf| <= MaxFileSize && |buf| <= 512 * T
    requires forall m :: m in path ==> ReadBlock(d', m) == ReadBlock(d, m)
    ensures forall k :: 0 <= k < |buf| ==> FileByte(ino', d', k) == buf[k]
    ensures Mapped(ino', d', 0, |buf|)
  {
    forall off: nat | off < MaxFileSize
      ensures FindTargetBlock(ino', d, off) == FindTargetBlock(ino, d, off)
    {
    }
    MapsFrame(path, ino', d, d', T);
    forall k | 0 <= k < |buf|
      ensures FindTargetBlock(ino', d', k) == DataBlock(path, FileBlock(k))
      ensures DataBlock(path, FileBlock(k)) > 0
      ensures FileByte(ino', d', k) == buf[k]
    {
      BlockBelow(k, T);
      var t := FileBlock(k);
      assert DataBlock(path, t) == path[Index(t)];
      assert ReadBlock(d', DataBlock(path, t)) == ReadBlock(d, DataBlock(path, t));
    }
  }

  /** A write result that took all of buf and left it as the file's first bytes. */
  ghost predicate Wrote(e: Entry, buf: seq<byte>, w: (int, FileSystem, Option<Entry>))
  {
    && w.0 == |buf| && w.2.Some? && w.2.value.mode == e.mode
    && w.2.value.inode.WellFormed() && |buf| <= w.2.value.inode.length <= MaxFileSize
    && (forall k :: 0 <= k < |buf| ==> FileByte(w.2.value.inode, w.1.disk, k) == buf[k])
    && Mapped(w.2.value.inode, w.1.disk, 0, |buf|)
  }

  /** The write itself: it succeeds and leaves the buffer as the file's first bytes. */
  lemma {:induction false} WriteFills(fs: FileSystem, e: Entry, buf: seq<byte>, path: seq<int>)
    requires e.mode != "r"
    requires e.inode.WellFormed() && NoBlocks(e.inode) && e.seekPtr == 0 && e.inode.length <= MaxFileSize
    requires |buf| <= MaxFileSize
    requires IsChain(fs.disk, fs.sb.freeList, path) && Index(Touched(|buf|)) <= |path|
    requires Usable(path, fs.sb.totalBlocks) && InodeBlock(e.iNumber) !in path
    ensures Wrote(e, buf, Write(fs, Some(e), buf))
  {
    var total := fs.sb.totalBlocks;
    ChainDistinct(fs.disk, fs.sb.freeList, path);
    Start(path, total, buf, fs.sb, fs.disk, e.inode);
    Loop(path, total, buf, fs.sb, fs.disk, e.inode, 0, 0);
    WriteUnfolds(fs, e, buf);
    Committed(path, total, buf, fs, e, WriteLoop(fs.sb, fs.disk, e.inode, 0, buf, 0));
  }

  /** Committing a finished loop: the inode write touches no block on the list, so the bytes stay readable. */
  lemma Committed(path: seq<int>, total: int, buf: seq<byte>, fs: FileSystem, e: Entry, st: Progress)
    requires Finished(path, total, buf, st) && Usable(path, total) && InodeBlock(e.iNumber) !in path
    requires |buf| <= MaxFileSize && st.inode.length == e.inode.length <= MaxFileSize
    ensures Wrote(e, buf, Commit(fs, e, st, |buf|))
  {
    var T := Touched(|buf|);
    var w := Commit(fs, e, st, |buf|);
    if T > DirectSize {
      assert st.inode.indirect in path;
    }
    FileHolds(path, total, buf, st.inode, w.2.value.inode, st.disk, w.1.disk, T);
  }

  /** A file with no blocks over the whole free list: nothing allocated, nothing held. */
  lemma {:induction false} Start(path: seq<int>, total: int, buf: seq<byte>, sb: SuperBlock, d: Disk, ino: Inode)
    requires ino.WellFormed() && NoBlocks(ino) && sb.totalBlocks == total
    requires IsChain(d, sb.freeList, path)
    ensures Allocated(path, total, sb, d, ino, 0) && Holds(path, buf, d, 0)
  {
    NothingMapped(path, ino, d);
    assert path[0..] == path;
  }

  /** A file with no blocks maps no offset. */
  lemma NothingMapped(path: seq<int>, ino: Inode, d: Disk)
    requires ino.WellFormed() && NoBlocks(ino)
    ensures Maps(path, ino, d, 0)
  {
    forall off: nat | off < MaxFileSize
      ensures FindTargetBlock(ino, d, off) == -1
    {
    }
  }

  /** A write from offset 0 runs the loop from there and commits its result. */
  lemma {:induction false} WriteUnfolds(fs: FileSystem, e: Entry, buf: seq<byte>)
    requires e.mode != "r" && e.inode.WellFormed() && e.seekPtr == 0 && |buf| <= MaxFileSize
    ensures Write(fs, Some(e), buf) == Commit(fs, e, WriteLoop(fs.sb, fs.disk, e.inode, 0, buf, 0), |buf|)
  {
  }

  /** Reading from offset 0 a file whose first bytes are mapped and equal buf gives buf. */
  lemma ReadBack(e: Entry, d: Disk, buf: seq<byte>, out: seq<byte>)
    requires e.mode != "w" && e.mode != "a"
    requires e.inode.WellFormed() && |buf| <= e.inode.length <= MaxFileSize && e.seekPtr == 0 && |out| == |buf|
    requires forall k :: 0 <= k < |buf| ==> FileByte(e.inode, d, k) == buf[k]
    requires Mapped(e.inode, d, 0, |buf|)
    ensures Read(e, d, out).0 == |buf| && Read(e, d, out).1 == buf
  {
    assert Min(e.seekPtr + |out|, e.inode.length) == |buf|;
    var r := Read(e, d, out);
    assert r.0 == |buf|;
    assert r.1 == buf;
  }

  /**
   * Write, seek back to 0, read: on a file with no blocks, opened in a mode
   * that both reads and writes, with the free list holding at least the
   * blocks the buffer needs (one more past 11 blocks, for the index block),
   * none of them the block holding the file's inode.
   */
  lemma {:induction false} WriteThenRead(fs: FileSystem, e: Entry, buf: seq<byte>, out: seq<byte>, path: seq<int>)
    requires e.mode != "r" && e.mode != "w" && e.mode != "a"
    requires e.inode.WellFormed() && NoBlocks(e.inode) && e.seekPtr == 0 && e.inode.length <= MaxFileSize
    requires |buf| <= MaxFileSize && |out| == |buf|
    requires IsChain(fs.disk, fs.sb.freeList, path) && Index(Touched(|buf|)) <= |path|
    requires Usable(path, fs.sb.totalBlocks) && InodeBlock(e.iNumber) !in path
    ensures var w := Write(fs, Some(e), buf);
            && w.0 == |buf| && w.2.Some?
            && Seek(w.2.value, 0, SeekSet).0 == 0
            && var e2 := Seek(w.2.value, 0, SeekSet).1;
               && e2.inode.WellFormed() && e2.inode.length <= MaxFileSize
               && Read(e2, w.1.disk, out).0 == |buf|
               && Read(e2, w.1.disk, out).1 == buf
  {
    WriteFills(fs, e, buf, path);
    var w := Write(fs, Some(e), buf);
    var e2 := Seek(w.2.value, 0, SeekSet).1;
    assert e2 == w.2.value.(seekPtr := 0);
    ReadBack(e2, w.1.disk, buf, out);
  }
}
