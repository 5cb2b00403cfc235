/**
 * The superblock (block 0: total blocks, total inodes, free-list head at
 * byte offsets 0, 4 and 8) and the free list it heads: a singly linked
 * list threaded through the first 4 bytes of every free block, ending in
 * -1. Allocation pops the head; a returned block is appended at the tail.
 */
module SuperBlocks {
  import opened Bytes
  import opened Disks
  import opened Inodes

  const DefaultInodeBlocks: int := 64
  /** The block count the format routine chains up to, whatever the disk size. */
  const DefaultBlocks: int := 1000
  const TotalBlocksAt: nat := 0
  const TotalInodesAt: nat := 4
  const FreeListAt: nat := 8

  datatype SuperBlock = SuperBlock(totalBlocks: int32, totalInodes: int32, freeList: int32)

  /** The link word of block `n`: the next free block, or -1. */
  function Link(d: Disk, n: int): int32
  {
    IntAt(ReadBlock(d, n), 0)
  }

  /** A free block as the source writes one: zeros, with link `next`. */
  function LinkBlock(next: int32): (b: Block)
    ensures IntAt(b, 0) == next
    ensures forall k :: 4 <= k < BlockSize ==> b[k] == 0
  {
    PutInt(ZeroBlock(), 0, next)
  }

  /**
   * The free list starting at `head` is exactly the blocks of `path`, in
   * order, and ends in -1. A list with no such path is cyclic, and walking
   * it never ends.
   */
  predicate IsChain(d: Disk, head: int, path: seq<int>)
    decreases |path|
  {
    if |path| == 0 then head == -1
    else head == path[0] && head != -1 && IsChain(d, Link(d, head), path[1..])
  }

  /** Every block on the list is one getFreeBlock accepts. */
  predicate InRange(path: seq<int>, totalBlocks: int)
  {
    forall k :: 0 <= k < |path| ==> 0 < path[k] < totalBlocks
  }

  lemma {:induction false} ChainUnique(d: Disk, head: int, p: seq<int>, q: seq<int>)
    requires IsChain(d, head, p) && IsChain(d, head, q)
    ensures p == q
    decreases |p|
  {
    if |p| > 0 {
      ChainUnique(d, Link(d, head), p[1..], q[1..]);
      assert p == [p[0]] + p[1..] && q == [q[0]] + q[1..];
    }
  }

  lemma {:induction false} ChainSuffix(d: Disk, head: int, p: seq<int>, k: nat)
    requires IsChain(d, head, p) && k < |p|
    ensures IsChain(d, p[k], p[k..])
    decreases k
  {
    if k > 0 {
      ChainSuffix(d, Link(d, head), p[1..], k - 1);
      assert p[1..][k - 1..] == p[k..];
    }
  }

  /** A list that ends never repeats a block. */
  lemma {:induction false} ChainDistinct(d: Disk, head: int, p: seq<int>)
    requires IsChain(d, head, p)
    ensures forall i, j :: 0 <= i < j < |p| ==> p[i] != p[j]
  {
    forall i, j | 0 <= i < j < |p|
      ensures p[i] != p[j]
    {
      if p[i] == p[j] {
        ChainSuffix(d, head, p, i);
        ChainSuffix(d, head, p, j);
        assert |p[i..]| != |p[j..]|;
        ChainUnique(d, p[i], p[i..], p[j..]);
      }
    }
  }

  /** A list is unaffected by writes that keep the link words of its blocks. */
  lemma {:induction false} ChainFrame(d: Disk, d': Disk, head: int, p: seq<int>)
    requires IsChain(d, head, p)
    requires forall k :: 0 <= k < |p| ==> Link(d', p[k]) == Link(d, p[k])
    ensures IsChain(d', head, p)
    decreases |p|
  {
    if |p| > 0 {
      ChainFrame(d, d', Link(d, head), p[1..]);
    }
  }

  /** Relinking the last block to a block whose link is -1 extends the list by it. */
  lemma {:induction false} ChainExtend(d: Disk, d': Disk, head: int, p: seq<int>, x: int)
    requires IsChain(d, head, p) && |p| > 0 && x != -1
    requires forall k :: 0 <= k < |p| - 1 ==> Link(d', p[k]) == Link(d, p[k])
    requires Link(d', p[|p| - 1]) == x && Link(d', x) == -1
    ensures IsChain(d', head, p + [x])
    decreases |p|
  {
    if |p| == 1 {
      assert p + [x] == [head, x];
      assert [head, x][1..] == [x];
      assert [x][1..] == [];
    } else {
      ChainExtend(d, d', Link(d, head), p[1..], x);
      assert (p + [x])[1..] == p[1..] + [x];
    }
  }

  /** Setting the link of the j-th block to -1 cuts the list after it. */
  lemma {:induction false} ChainCut(d: Disk, d': Disk, head: int, p: seq<int>, j: nat)
    requires IsChain(d, head, p) && j < |p|
    requires forall k :: 0 <= k < j ==> Link(d', p[k]) == Link(d, p[k])
    requires Link(d', p[j]) == -1
    ensures IsChain(d', head, p[..j + 1])
    decreases j
  {
    if j == 0 {
      assert p[..1] == [head];
      assert [head][1..] == [];
    } else {
      ChainCut(d, d', Link(d, head), p[1..], j - 1);
      assert p[..j + 1][1..] == p[1..][..j];
    }
  }

  function IndexOf(s: seq<int>, x: int): (i: nat)
    requires x in s
    ensures i < |s| && s[i] == x
    ensures forall j :: 0 <= j < i ==> s[j] != x
  {
    if s[0] == x then 0 else 1 + IndexOf(s[1..], x)
  }

  /**
   * The list after returnBlock(n) has appended n: n added at the end, or,
   * when n was already on the list, the list cut just after n.
   */
  function AfterReturn(path: seq<int>, n: int): seq<int>
  {
    if n in path then path[..IndexOf(path, n) + 1] else path + [n]
  }

  // ---------------------------------------------------------------------
  // getFreeBlock, returnBlock

  /** getFreeBlock: pop the head when it lies in (0, totalBlocks), else -1. */
  function GetFreeBlock(sb: SuperBlock, d: Disk): (r: (int32, SuperBlock))
    ensures r.0 == -1 <==> !(0 < sb.freeList < sb.totalBlocks)
    ensures r.0 == -1 ==> r.1 == sb
    ensures r.0 != -1 ==> r.0 == sb.freeList && r.1 == sb.(freeList := Link(d, sb.freeList))
  {
    if 0 < sb.freeList < sb.totalBlocks then (sb.freeList, sb.(freeList := Link(d, sb.freeList)))
    else (-1, sb)
  }

  /** On a list of in-range blocks, getFreeBlock hands out the first and leaves the rest. */
  lemma {:induction false} GetFreeBlockPops(sb: SuperBlock, d: Disk, path: seq<int>)
    requires IsChain(d, sb.freeList, path) && InRange(path, sb.totalBlocks)
    ensures |path| == 0 ==> GetFreeBlock(sb, d).0 == -1
    ensures |path| > 0 ==> && GetFreeBlock(sb, d).0 == path[0]
                           && IsChain(d, GetFreeBlock(sb, d).1.freeList, path[1..])
  {
  }

  /** Walk from `cur` to the block whose link is -1. */
  function WalkToTail(d: Disk, cur: int, ghost path: seq<int>): (tail: int)
    requires cur != -1 && IsChain(d, cur, path)
    ensures tail == path[|path| - 1]
    decreases |path|
  {
    var next := Link(d, cur);
    assert IsChain(d, next, path[1..]);
    if next == -1 then cur else WalkToTail(d, next, path[1..])
  }

  /**
   * returnBlock(n): for n in (0, totalBlocks) and a non-empty list, zero
   * block n with link -1 and link the old tail to it. Fails with no write
   * on an empty list or an out-of-range n, before any walk. The walk to
   * the tail ends only on an acyclic list, which `path` witnesses.
   */
  function ReturnBlock(sb: SuperBlock, d: Disk, n: int, ghost path: seq<int>): (r: (bool, Disk))
    requires 0 < n < sb.totalBlocks && sb.freeList != -1 ==> IsChain(d, sb.freeList, path)
    ensures r.0 <==> 0 < n < sb.totalBlocks && sb.freeList != -1
    ensures !r.0 ==> r.1 == d
    ensures r.0 ==> && ReadBlock(r.1, n) == LinkBlock(-1)
                    && (n != path[|path| - 1] ==> Link(r.1, path[|path| - 1]) == n)
                    && (forall m :: m != n && m != path[|path| - 1] ==> ReadBlock(r.1, m) == ReadBlock(d, m))
                    && IsChain(r.1, sb.freeList, AfterReturn(path, n))
  {
    if !(0 < n < sb.totalBlocks) || sb.freeList == -1 then (false, d)
    else
      var tail := WalkToTail(d, sb.freeList, path);
      var d1 := WriteBlock(d, tail, PutInt(ReadBlock(d, tail), 0, n));
      var d2 := WriteBlock(d1, n, LinkBlock(-1));
      ReturnedChain(d, d2, sb.freeList, path, n);
      (true, d2)
  }

  lemma {:induction false} ReturnedChain(d: Disk, d': Disk, head: int, path: seq<int>, n: int)
    requires IsChain(d, head, path) && |path| > 0 && n > 0
    requires Link(d', n) == -1
    requires n != path[|path| - 1] ==> Link(d', path[|path| - 1]) == n
    requires forall m :: m != n && m != path[|path| - 1] ==> ReadBlock(d', m) == ReadBlock(d, m)
    ensures IsChain(d', head, AfterReturn(path, n))
  {
    ChainDistinct(d, head, path);
    if n in path {
      var j := IndexOf(path, n);
      ChainCut(d, d', head, path, j);
    } else {
      ChainExtend(d, d', head, path, n);
    }
  }

  /**
   * On a non-empty list not holding n, returnBlock(n) appends n after the
   * old tail: the list is the old one followed by n.
   */
  lemma {:induction false} ReturnBlockAppends(sb: SuperBlock, d: Disk, n: int, path: seq<int>)
    requires IsChain(d, sb.freeList, path) && |path| > 0 && n !in path && 0 < n < sb.totalBlocks
    ensures ReturnBlock(sb, d, n, path).0
    ensures IsChain(ReturnBlock(sb, d, n, path).1, sb.freeList, path + [n])
    ensures Link(ReturnBlock(sb, d, n, path).1, path[|path| - 1]) == n
  {
  }

  // ---------------------------------------------------------------------
  // The superblock record, format, sync, construction

  function SuperImage(sb: SuperBlock): (b: Block)
    ensures IntAt(b, TotalBlocksAt) == sb.totalBlocks
    ensures IntAt(b, TotalInodesAt) == sb.totalInodes
    ensures IntAt(b, FreeListAt) == sb.freeList
  {
    var b0 := PutInt(ZeroBlock(), TotalBlocksAt, sb.totalBlocks);
    var b1 := PutInt(b0, TotalInodesAt, sb.totalInodes);
    var b2 := PutInt(b1, FreeListAt, sb.freeList);
    IntAtFrame(b0, b2, TotalBlocksAt);
    IntAtFrame(b1, b2, TotalInodesAt);
    b2
  }

  /**
   * The constructor's read of block 0: the three fields are the ints at
   * offsets 0, 4 and 8, so the first 12 bytes of block 0 are exactly the
   * image sync would write for them.
   */
  function ReadSuperBlock(d: Disk): (r: SuperBlock)
    ensures SuperImage(r)[..12] == ReadBlock(d, 0)[..12]
  {
    var b := ReadBlock(d, 0);
    var r := SuperBlock(IntAt(b, TotalBlocksAt), IntAt(b, TotalInodesAt), IntAt(b, FreeListAt));
    SameInts(SuperImage(r), b);
    r
  }

  /** Two blocks holding the same three ints agree on their first 12 bytes. */
  lemma SameInts(a: Block, b: Block)
    requires IntAt(a, 0) == IntAt(b, 0) && IntAt(a, 4) == IntAt(b, 4) && IntAt(a, 8) == IntAt(b, 8)
    ensures a[..12] == b[..12]
  {
    IntBytesRoundTrip(a[0..4]);
    IntBytesRoundTrip(b[0..4]);
    IntBytesRoundTrip(a[4..8]);
    IntBytesRoundTrip(b[4..8]);
    IntBytesRoundTrip(a[8..12]);
    IntBytesRoundTrip(b[8..12]);
    assert a[..12] == a[0..4] + a[4..8] + a[8..12];
    assert b[..12] == b[0..4] + b[4..8] + b[8..12];
  }

  /** sync: store the three fields in block 0. */
  function Sync(sb: SuperBlock, d: Disk): (d': Disk)
    ensures ReadSuperBlock(d') == sb
    ensures ReadBlock(d', 0) == SuperImage(sb)
    ensures forall n :: n != 0 ==> ReadBlock(d', n) == ReadBlock(d, n)
  {
    WriteBlock(d, 0, SuperImage(sb))
  }

  /** The record format writes for each inode: an empty inode with flag 0. */
  function UnusedInode(): (r: Inode)
    ensures r.WellFormed() && NoBlocks(r) && r.flag == 0 && r.count == 0 && r.length == 0
  {
    NewInode().(flag := 0)
  }

  /** Write unused records for inodes from..count-1. */
  function FormatInodes(d: Disk, from: nat, count: nat): (r: Disk)
    ensures forall j: nat :: from <= j < count ==> ReadInode(r, j) == UnusedInode()
    ensures forall j: nat :: j < from ==> ReadInode(r, j) == ReadInode(d, j)
    ensures forall n :: n <= 0 || n >= count / 16 + 2 ==> ReadBlock(r, n) == ReadBlock(d, n)
    decreases count - from
  {
    if from >= count then d
    else FormatInodes(WriteInode(d, from, UnusedInode()), from + 1, count)
  }

  /** Write blocks from..to-1 as free blocks, each linked to the next. */
  function ChainFree(d: Disk, lo: nat, hi: nat): (r: Disk)
    requires hi <= DefaultBlocks
    ensures forall i :: lo <= i < hi ==> ReadBlock(r, i) == LinkBlock(i + 1)
    ensures forall n :: n < lo || hi <= n ==> ReadBlock(r, n) == ReadBlock(d, n)
    decreases hi - lo
  {
    if lo >= hi then d
    else ChainFree(WriteBlock(d, lo, LinkBlock(lo + 1)), lo + 1, hi)
  }

  /**
   * The blocks format writes besides block 0: `count` unused inode
   * records, then blocks head..998 each linked to the next, then block 999
   * with link -1.
   */
  function FormatBlocks(d: Disk, count: nat, head: nat): (r: Disk)
    ensures forall n :: n < head && n != DefaultBlocks - 1 ==> ReadBlock(r, n) == ReadBlock(FormatInodes(d, 0, count), n)
    ensures forall i :: head <= i < DefaultBlocks - 1 ==> ReadBlock(r, i) == LinkBlock(i + 1)
    ensures ReadBlock(r, DefaultBlocks - 1) == LinkBlock(-1)
  {
    var d1 := FormatInodes(d, 0, count);
    var d2 := ChainFree(d1, head, DefaultBlocks - 1);
    WriteBlock(d2, DefaultBlocks - 1, LinkBlock(-1))
  }

  /**
   * format(k): k inode records (64 when k is negative), free list from
   * block k/16 + 2 chained up to block 999 whatever the disk size, and the
   * new fields stored in block 0.
   */
  function Format(sb: SuperBlock, d: Disk, k: int32): (r: (SuperBlock, Disk))
    requires k < 0x8000
    ensures r.0.totalBlocks == sb.totalBlocks
    ensures r.0.totalInodes == (if k < 0 then DefaultInodeBlocks else k)
    ensures r.0.freeList == r.0.totalInodes / 16 + 2
    ensures ReadSuperBlock(r.1) == r.0
  {
    var count := InodeCount(k);
    var sb' := SuperBlock(sb.totalBlocks, count, count / 16 + 2);
    (sb', Sync(sb', FormatBlocks(d, count, count / 16 + 2)))
  }

  /** The inode count format settles on: 64 for a negative argument. */
  function InodeCount(k: int32): nat
  {
    if k < 0 then DefaultInodeBlocks else k
  }

  /** The blocks lo, lo+1, ..., hi-1. */
  function Range(lo: int, hi: int): (r: seq<int>)
    ensures |r| == if lo < hi then hi - lo else 0
    ensures forall k :: 0 <= k < |r| ==> r[k] == lo + k
    decreases hi - lo
  {
    if lo >= hi then [] else [lo] + Range(lo + 1, hi)
  }

  lemma {:induction false} ChainOfRange(d: Disk, lo: int, hi: int)
    requires 0 <= lo < hi
    requires forall i :: lo <= i < hi - 1 ==> Link(d, i) == i + 1
    requires Link(d, hi - 1) == -1
    ensures IsChain(d, lo, Range(lo, hi))
    decreases hi - lo
  {
    if lo < hi - 1 {
      ChainOfRange(d, lo + 1, hi);
      assert Range(lo, hi)[1..] == Range(lo + 1, hi);
    } else {
      assert Range(lo, hi) == [lo];
      assert [lo][1..] == [];
    }
  }

  /** A record reads the same from two disks that agree on its block. */
  lemma SameInodeBlock(d: Disk, d': Disk, j: nat)
    requires ReadBlock(d, InodeBlock(j)) == ReadBlock(d', InodeBlock(j))
    ensures ReadInode(d, j) == ReadInode(d', j)
  {
  }

  /** Records 0..k-1 live in blocks 1 .. k/16 + 1. */
  lemma InodeBlockBelow(j: nat, k: nat)
    requires j < k
    ensures 0 < InodeBlock(j) < k / 16 + 2
  {
  }

  /** Format leaves the blocks between the superblock and the free list as FormatInodes wrote them. */
  lemma {:induction false} FormatKeepsInodeBlocks(sb: SuperBlock, d: Disk, k: int32, n: int)
    requires k < 0x8000 && 0 < n < InodeCount(k) / 16 + 2 && n != DefaultBlocks - 1
    ensures ReadBlock(Format(sb, d, k).1, n) == ReadBlock(FormatInodes(d, 0, InodeCount(k)), n)
  {
    FormatBlockIsSync(sb, d, k, n);
  }

  /** Format changes block n != 0 only as FormatBlocks does. */
  lemma FormatBlockIsSync(sb: SuperBlock, d: Disk, k: int32, n: int)
    requires k < 0x8000 && n != 0
    ensures ReadBlock(Format(sb, d, k).1, n) == ReadBlock(FormatBlocks(d, InodeCount(k), InodeCount(k) / 16 + 2), n)
  {
  }

  /**
   * After format, every inode below the count reads back unused, except
   * the records 15968 .. 15983 that share block 999 with the end of the
   * free list, which only counts above 15968 reach.
   */
  lemma FormatLeavesInodesUnused(sb: SuperBlock, d: Disk, k: int32, j: nat)
    requires k < 0x8000 && j < InodeCount(k) && InodeBlock(j) != DefaultBlocks - 1
    ensures ReadInode(Format(sb, d, k).1, j) == UnusedInode()
  {
    var c := InodeCount(k);
    InodeBlockBelow(j, c);
    FormatKeepsInodeBlocks(sb, d, k, InodeBlock(j));
    var f := FormatInodes(d, 0, c);
    assert ReadInode(f, j) == UnusedInode();
    UnusedRecord(Format(sb, d, k).1, f, j);
  }

  /** A disk that agrees on record j's block with one where record j is unused reads it as unused too. */
  lemma UnusedRecord(d4: Disk, f: Disk, j: nat)
    requires ReadInode(f, j) == UnusedInode() && ReadBlock(d4, InodeBlock(j)) == ReadBlock(f, InodeBlock(j))
    ensures ReadInode(d4, j) == UnusedInode()
  {
    SameInodeBlock(d4, f, j);
  }

  /**
   * After format the free list walks head, head+1, ..., 999, provided the
   * inode records end before block 999.
   */
  lemma FormatChainsFreeBlocks(sb: SuperBlock, d: Disk, k: int32)
    requires k < 0x8000 && Format(sb, d, k).0.freeList < DefaultBlocks
    ensures IsChain(Format(sb, d, k).1, Format(sb, d, k).0.freeList, Range(Format(sb, d, k).0.freeList, DefaultBlocks))
  {
    var c := InodeCount(k);
    var head := c / 16 + 2;
    var r := Format(sb, d, k);
    assert r.0.freeList == head;
    FormatIsSync(sb, d, k);
    FreeLinks(FormatBlocks(d, c, head), r.1, head);
  }

  /** Format changes nothing but block 0 of what FormatBlocks wrote. */
  lemma FormatIsSync(sb: SuperBlock, d: Disk, k: int32)
    requires k < 0x8000
    ensures forall n :: n != 0 ==>
              ReadBlock(Format(sb, d, k).1, n) == ReadBlock(FormatBlocks(d, InodeCount(k), InodeCount(k) / 16 + 2), n)
  {
  }

  /** Block 0 aside, the blocks from head on keep the links FormatBlocks gave them, so they form the list. */
  lemma {:induction false} FreeLinks(d3: Disk, d4: Disk, head: nat)
    requires 0 < head < DefaultBlocks
    requires forall i :: head <= i < DefaultBlocks - 1 ==> ReadBlock(d3, i) == LinkBlock(i + 1)
    requires ReadBlock(d3, DefaultBlocks - 1) == LinkBlock(-1)
    requires forall n :: n != 0 ==> ReadBlock(d4, n) == ReadBlock(d3, n)
    ensures IsChain(d4, head, Range(head, DefaultBlocks))
  {
    forall i | head <= i < DefaultBlocks - 1
      ensures Link(d4, i) == i + 1
    {
      assert ReadBlock(d4, i) == LinkBlock(i + 1);
    }
    assert ReadBlock(d4, DefaultBlocks - 1) == LinkBlock(-1);
    ChainOfRange(d4, head, DefaultBlocks);
  }

  /** The stored fields are reused only for a matching block count and sane contents. */
  predicate Reusable(stored: SuperBlock, numBlocks: int)
  {
    stored.totalBlocks == numBlocks && stored.totalInodes > 0 && stored.freeList >= 2
  }

  /**
   * SuperBlock(numBlocks): keep the fields stored in block 0 when they are
   * reusable, otherwise format with 64 inodes for a disk of numBlocks.
   */
  function LoadSuperBlock(d: Disk, numBlocks: int32): (r: (SuperBlock, Disk))
    ensures Reusable(ReadSuperBlock(d), numBlocks) ==> r == (ReadSuperBlock(d), d)
    ensures !Reusable(ReadSuperBlock(d), numBlocks) ==>
              r.0 == SuperBlock(numBlocks, DefaultInodeBlocks, DefaultInodeBlocks / 16 + 2)
    ensures ReadSuperBlock(r.1) == r.0
  {
    var stored := ReadSuperBlock(d);
    if Reusable(stored, numBlocks) then (stored, d)
    else Format(stored.(totalBlocks := numBlocks), d, DefaultInodeBlocks)
  }

  /** A synced, sane superblock is loaded back unchanged. */
  lemma SyncThenLoad(sb: SuperBlock, d: Disk)
    requires sb.totalInodes > 0 && sb.freeList >= 2
    ensures LoadSuperBlock(Sync(sb, d), sb.totalBlocks) == (sb, Sync(sb, d))
  {
  }
}
