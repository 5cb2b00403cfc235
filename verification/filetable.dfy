/**
 * The system-wide file table: one entry per open, and the inode flag state
 * machine (UNUSED, USED, READ, WRITE) that admits many readers or a single
 * writer. The flag and user count of record live on disk: both falloc and
 * ffree re-read the inode before changing it.
 *
 * Threads are not modelled. Where the source would wait() for another
 * thread, falloc returns `Blocked`; where it would spin for ever without
 * waiting, `Spinning`; where it would throw, `Raised`.
 */
module FileTables {
  import opened Bytes
  import opened Disks
  import opened Inodes
  import opened Directories

  const FlagUnused: int16 := 0
  const FlagUsed: int16 := 1
  const FlagRead: int16 := 2
  const FlagWrite: int16 := 3

  /** An inode number: a non-negative short. */
  type INumber = x: int | 0 <= x < 0x8000

  /**
   * A FileTableEntry. `handle` stands for the object's identity, which is
   * what Vector.remove compares; `inode` is the entry's own in-memory copy.
   */
  datatype Entry = Entry(handle: nat, seekPtr: int32, inode: Inode, iNumber: INumber, count: int32, mode: string)

  /** FileTableEntry's constructor: one user, seek pointer at the end for "a", else at 0. */
  function NewEntry(handle: nat, ino: Inode, iNumber: INumber, mode: string): (e: Entry)
    ensures e.handle == handle && e.inode == ino && e.iNumber == iNumber && e.mode == mode
    ensures e.count == 1
    ensures mode == "a" ==> e.seekPtr == ino.length
    ensures mode != "a" ==> e.seekPtr == 0
  {
    Entry(handle, if mode == "a" then ino.length else 0, ino, iNumber, 1, mode)
  }

  /** The table; `nextHandle` is the identity the next new entry receives. */
  datatype FileTable = FileTable(entries: seq<Entry>, nextHandle: nat)
  {
    /** Every entry's identity was handed out before, so a new entry's is fresh. */
    predicate Valid()
    {
      forall k :: 0 <= k < |entries| ==> entries[k].handle < nextHandle
    }
  }

  function EmptyTable(): (ft: FileTable)
    ensures ft.Valid() && ft.entries == []
  {
    FileTable([], 0)
  }

  /** fempty: no entry is open. */
  function Fempty(ft: FileTable): (r: bool)
    ensures r <==> |ft.entries| == 0
  {
    ft.entries == []
  }

  /** The outcome of falloc. */
  datatype Allocation =
    | Granted(entry: Entry, table: FileTable, dir: Directory, disk: Disk)
    | Absent     // null: no such file and mode "r"
    | Blocked    // waits for another thread to free the file
    | Spinning   // loops for ever without waiting
    | Raised     // throws: ialloc found no free slot

  /** The inode number a name resolves to: "/" is 0 without lookup, else namei. */
  function Resolve(dir: Directory, name: string): (r: int)
    requires dir.WellFormed()
    ensures -1 <= r < 0x8000
    ensures name == "/" ==> r == 0
    ensures name != "/" ==> r == Namei(dir, name)
  {
    if name == "/" then 0 else Namei(dir, name)
  }

  /** May the open go ahead on an existing inode with this flag? */
  predicate Admits(mode: string, flag: int16)
  {
    if mode == "r" then flag == FlagRead || flag == FlagUsed || flag == FlagUnused
    else flag == FlagUsed || flag == FlagUnused
  }

  /**
   * What a granted falloc leaves: one entry appended with the next handle,
   * the mode, one user and the seek pointer at 0 (at the end for "a"); the
   * inode record read from disk with the new flag and one more user, and
   * written back; no other inode record and no other block changed.
   */
  ghost predicate Installed(ft: FileTable, d: Disk, mode: string, r: Allocation)
    requires r.Granted?
  {
    && r.table.entries == ft.entries + [r.entry]
    && r.table.nextHandle == ft.nextHandle + 1
    && r.entry.handle == ft.nextHandle
    && r.entry.mode == mode && r.entry.count == 1
    && r.entry.seekPtr == (if mode == "a" then r.entry.inode.length else 0)
    && r.entry.inode == ReadInode(d, r.entry.iNumber).(
         flag := if mode == "r" then FlagRead else FlagWrite,
         count := Wrap16(ReadInode(d, r.entry.iNumber).count + 1))
    && ReadInode(r.disk, r.entry.iNumber) == r.entry.inode
    && (forall j: nat :: j != r.entry.iNumber ==> ReadInode(r.disk, j) == ReadInode(d, j))
    && (forall n :: n != InodeBlock(r.entry.iNumber) ==> ReadBlock(r.disk, n) == ReadBlock(d, n))
    && r.dir.WellFormed()
  }

  /** Set the flag for the mode, count one more user, persist the record, append a new entry. */
  function Grant(ft: FileTable, dir: Directory, d: Disk, i: INumber, mode: string): (r: Allocation)
    requires dir.WellFormed()
    ensures r.Granted? && r.entry.iNumber == i && r.dir == dir
    ensures Installed(ft, d, mode, r)
  {
    var ino := ReadInode(d, i);
    var ino' := ino.(flag := if mode == "r" then FlagRead else FlagWrite, count := Wrap16(ino.count + 1));
    var e := NewEntry(ft.nextHandle, ino', i, mode);
    Granted(e, FileTable(ft.entries + [e], ft.nextHandle + 1), dir, WriteInode(d, i, ino'))
  }

  /**
   * falloc(name, mode). An existing file is admitted for reading while its
   * flag is UNUSED, USED or READ, and for any other mode while it is UNUSED
   * or USED. A missing file is created through ialloc unless the mode is
   * "r". On success the on-disk record carries the new flag and one more
   * user, and one entry is appended.
   */
  function Falloc(ft: FileTable, dir: Directory, d: Disk, name: string, mode: string): (r: Allocation)
    requires dir.WellFormed()
    ensures r.Granted? ==> Installed(ft, d, mode, r)
    ensures Resolve(dir, name) >= 0 ==>
              && (r.Granted? <==> Admits(mode, ReadInode(d, Resolve(dir, name)).flag))
              && (r.Granted? ==> r.entry.iNumber == Resolve(dir, name) && r.dir == dir)
              && (r.Blocked? <==> !Admits(mode, ReadInode(d, Resolve(dir, name)).flag)
                                  && (mode != "r" || ReadInode(d, Resolve(dir, name)).flag == FlagWrite))
              && (r.Spinning? <==> mode == "r" && !Admits(mode, ReadInode(d, Resolve(dir, name)).flag)
                                   && ReadInode(d, Resolve(dir, name)).flag != FlagWrite)
    ensures Resolve(dir, name) < 0 && mode == "r" ==> r.Absent?
    ensures Resolve(dir, name) < 0 && mode != "r" ==>
              && (r.Raised? <==> Ialloc(dir, name).0 == -1)
              && (r.Granted? <==> Ialloc(dir, name).0 != -1)
              && (r.Granted? ==> r.entry.iNumber == Ialloc(dir, name).0 && r.dir == Ialloc(dir, name).1)
  {
    var i := Resolve(dir, name);
    if i >= 0 then
      var ino := ReadInode(d, i);
      if Admits(mode, ino.flag) then
        Grant(ft, dir, d, i, mode)
      else if mode != "r" || ino.flag == FlagWrite then Blocked
      else Spinning
    else if mode != "r" then
      var (j, dir') := Ialloc(dir, name);
      if j < 0 then Raised
      else Grant(ft, dir', d, j, mode)
    else Absent
  }

  /** Index of the entry with this identity, or -1. */
  function Find(entries: seq<Entry>, handle: nat): (k: int)
    ensures -1 <= k < |entries|
    ensures k == -1 <==> forall j :: 0 <= j < |entries| ==> entries[j].handle != handle
    ensures k >= 0 ==> entries[k].handle == handle && forall j :: 0 <= j < k ==> entries[j].handle != handle
  {
    if |entries| == 0 then -1
    else if entries[0].handle == handle then 0
    else
      var k := Find(entries[1..], handle);
      if k < 0 then -1 else k + 1
  }

  /** The flag ffree leaves: the last reader or the writer gives the file back. */
  function Released(ino: Inode): int16
  {
    if ino.flag == FlagRead && ino.count == 1 then FlagUsed
    else if ino.flag == FlagWrite then FlagUsed
    else ino.flag
  }

  /**
   * ffree(e): drop the entry from the table, then re-read its inode, count
   * one user less and release the flag. An entry the table does not hold
   * changes nothing.
   */
  function Ffree(ft: FileTable, d: Disk, e: Entry): (r: (bool, FileTable, Disk))
    ensures r.0 <==> exists k :: 0 <= k < |ft.entries| && ft.entries[k].handle == e.handle
    ensures !r.0 ==> r.1 == ft && r.2 == d
    ensures r.0 ==>
              && r.1.nextHandle == ft.nextHandle
              && r.1.entries == ft.entries[..Find(ft.entries, e.handle)] + ft.entries[Find(ft.entries, e.handle) + 1..]
              && ReadInode(r.2, e.iNumber) == ReadInode(d, e.iNumber).(
                   flag := Released(ReadInode(d, e.iNumber)),
                   count := Wrap16(ReadInode(d, e.iNumber).count - 1))
              && (forall j: nat :: j != e.iNumber ==> ReadInode(r.2, j) == ReadInode(d, j))
              && (forall n :: n != InodeBlock(e.iNumber) ==> ReadBlock(r.2, n) == ReadBlock(d, n))
  {
    var ino := ReadInode(d, e.iNumber);
    var k := Find(ft.entries, e.handle);
    if k < 0 then (false, ft, d)
    else
      var ino' := ino.(flag := Released(ino), count := Wrap16(ino.count - 1));
      (true, ft.(entries := ft.entries[..k] + ft.entries[k + 1..]), WriteInode(d, e.iNumber, ino'))
  }

  // ---------------------------------------------------------------------
  // Properties of the state machine

  lemma FallocKeepsValid(ft: FileTable, dir: Directory, d: Disk, name: string, mode: string)
    requires dir.WellFormed() && ft.Valid()
    ensures Falloc(ft, dir, d, name, mode).Granted? ==> Falloc(ft, dir, d, name, mode).table.Valid()
  {
  }

  /** fempty holds of the table the file system starts with. */
  lemma EmptyTableIsEmpty()
    ensures Fempty(EmptyTable())
  {
  }

  /**
   * On an empty table, a granted falloc makes the table non-empty and
   * freeing the entry it returned makes it empty again.
   */
  lemma FemptyAcrossOpen(ft: FileTable, dir: Directory, d: Disk, name: string, mode: string)
    requires dir.WellFormed() && ft.Valid() && Fempty(ft)
    requires Falloc(ft, dir, d, name, mode).Granted?
    ensures var r := Falloc(ft, dir, d, name, mode);
            && !Fempty(r.table)
            && Fempty(Ffree(r.table, r.disk, r.entry).1)
  {
    var r := Falloc(ft, dir, d, name, mode);
    FallocThenFfree(ft, dir, d, name, mode, r.entry);
  }

  /**
   * The root "/" is found without a directory lookup: falloc of "/" never
   * answers null and never throws, and when it grants, the entry is for
   * inode 0 and the directory is left as it was.
   */
  lemma RootAlwaysResolves(ft: FileTable, dir: Directory, d: Disk, mode: string)
    requires dir.WellFormed()
    ensures var r := Falloc(ft, dir, d, "/", mode);
            && !r.Absent? && !r.Raised?
            && (r.Granted? ==> r.entry.iNumber == 0 && r.dir == dir)
  {
  }

  /**
   * Once a file is open for writing, every further open of it waits,
   * whatever the mode: there is a single writer and no reader beside it.
   * This holds for a file the first open creates too, provided its name
   * fits in 30 characters (see LongNameOpensTwice for longer ones).
   */
  lemma WriterExcludesAll(ft: FileTable, dir: Directory, d: Disk, name: string, m1: string, m2: string)
    requires dir.WellFormed() && m1 != "r"
    requires Resolve(dir, name) >= 0 || |name| <= MaxChars
    requires Falloc(ft, dir, d, name, m1).Granted?
    ensures var r := Falloc(ft, dir, d, name, m1);
            Falloc(r.table, r.dir, r.disk, name, m2).Blocked?
  {
    var r := Falloc(ft, dir, d, name, m1);
    if Resolve(dir, name) < 0 {
      assert name != "/";
      IallocThenNamei(dir, name);
      assert Resolve(r.dir, name) == r.entry.iNumber;
    }
    assert ReadInode(r.disk, r.entry.iNumber).flag == FlagWrite;
  }

  /**
   * A name longer than 30 characters is stored cut to 30, but namei
   * compares the whole name, so the file falloc just created cannot be
   * found again: a second open for reading answers null, and a second open
   * for writing creates a second file under another inode number instead
   * of waiting for the first writer.
   */
  lemma LongNameOpensTwice(ft: FileTable, dir: Directory, d: Disk, name: string, m1: string, m2: string)
    requires dir.WellFormed() && |name| > MaxChars && Resolve(dir, name) < 0 && m1 != "r"
    requires Falloc(ft, dir, d, name, m1).Granted?
    ensures var r := Falloc(ft, dir, d, name, m1);
            && Resolve(r.dir, name) == -1
            && (m2 == "r" ==> Falloc(r.table, r.dir, r.disk, name, m2).Absent?)
            && (m2 != "r" && Ialloc(r.dir, name).0 != -1 ==>
                  && Falloc(r.table, r.dir, r.disk, name, m2).Granted?
                  && Falloc(r.table, r.dir, r.disk, name, m2).entry.iNumber != r.entry.iNumber)
  {
    var r := Falloc(ft, dir, d, name, m1);
    var j := r.entry.iNumber;
    forall k | 0 <= k < r.dir.Capacity()
      ensures !Holds(r.dir, k, name)
    {
      if k != j {
        assert r.dir.sizes[k] == dir.sizes[k] && r.dir.names[k] == dir.names[k];
        assert !Holds(dir, k, name);
      }
    }
  }

  /** A concrete instance: a 31-character name opened twice for writing on a fresh three-slot directory. */
  lemma LongNameExample()
    ensures var dir := NewDirectory(3).value;
            var name := seq(31, k => 'a');
            var r := Falloc(EmptyTable(), dir, map[], name, "w");
            && r.Granted? && r.entry.iNumber == 1
            && Falloc(r.table, r.dir, r.disk, name, "w").Granted?
            && Falloc(r.table, r.dir, r.disk, name, "w").entry.iNumber == 2
  {
    var dir := NewDirectory(3).value;
    var name := seq(31, k => 'a');
    assert !Holds(dir, 0, name) && !Holds(dir, 1, name) && !Holds(dir, 2, name);
    assert Resolve(dir, name) == -1;
    var r := Falloc(EmptyTable(), dir, map[], name, "w");
    assert Ialloc(dir, name).0 == 1;
    assert r.Granted?;
    assert r.dir.sizes[2] == 0 && r.dir.sizes[0] != 0 && r.dir.sizes[1] != 0;
    LongNameOpensTwice(EmptyTable(), dir, map[], name, "w", "w");
    assert Ialloc(r.dir, name).0 == 2;
  }

  /**
   * falloc with the name cut to the 30 characters the directory keeps, so
   * that lookup and creation agree on the name: it is falloc itself for
   * names of at most 30 characters, and a granted name is found again.
   */
  function FallocCapped(ft: FileTable, dir: Directory, d: Disk, name: string, mode: string): (r: Allocation)
    requires dir.WellFormed()
    ensures |name| <= MaxChars ==> r == Falloc(ft, dir, d, name, mode)
    ensures r.Granted? ==> r.dir.WellFormed()
    ensures r.Granted? ==> Resolve(r.dir, name[..Min(|name|, MaxChars)]) == r.entry.iNumber
  {
    var key := name[..Min(|name|, MaxChars)];
    assert |name| <= MaxChars ==> key == name;
    GrantFoundAgain(ft, dir, d, key, mode);
    Falloc(ft, dir, d, key, mode)
  }

  /**
   * For a name the directory can hold whole, the inode falloc grants is
   * the one the name resolves to afterwards, whether it was found or created.
   */
  lemma GrantFoundAgain(ft: FileTable, dir: Directory, d: Disk, name: string, mode: string)
    requires dir.WellFormed() && |name| <= MaxChars
    ensures var r := Falloc(ft, dir, d, name, mode);
            r.Granted? ==> r.dir.WellFormed() && Resolve(r.dir, name) == r.entry.iNumber
  {
    var r := Falloc(ft, dir, d, name, mode);
    if r.Granted? && Resolve(dir, name) < 0 {
      assert name != "/";
      IallocThenNamei(dir, name);
    }
  }

  /** With the name cut consistently, a writer excludes every later open of the same name, however long. */
  lemma WriterExcludesAllCapped(ft: FileTable, dir: Directory, d: Disk, name: string, m1: string, m2: string)
    requires dir.WellFormed() && m1 != "r"
    requires FallocCapped(ft, dir, d, name, m1).Granted?
    ensures var r := FallocCapped(ft, dir, d, name, m1);
            FallocCapped(r.table, r.dir, r.disk, name, m2).Blocked?
  {
    WriterExcludesAll(ft, dir, d, name[..Min(|name|, MaxChars)], m1, m2);
  }

  /** While a file is open for reading, more readers get in but a writer waits. */
  lemma ReadersShare(ft: FileTable, dir: Directory, d: Disk, name: string, m2: string)
    requires dir.WellFormed() && Resolve(dir, name) >= 0
    requires Falloc(ft, dir, d, name, "r").Granted?
    ensures var r := Falloc(ft, dir, d, name, "r");
            && (m2 == "r" ==> Falloc(r.table, r.dir, r.disk, name, m2).Granted?)
            && (m2 != "r" ==> Falloc(r.table, r.dir, r.disk, name, m2).Blocked?)
  {
    var r := Falloc(ft, dir, d, name, "r");
    assert ReadInode(r.disk, r.entry.iNumber).flag == FlagRead;
  }

  /**
   * Freeing the entry falloc just made restores the table and the user
   * count; the flag is handed back to USED after a write, and after a read
   * exactly when nobody else was using the file.
   */
  lemma FallocThenFfree(ft: FileTable, dir: Directory, d: Disk, name: string, mode: string, e: Entry)
    requires dir.WellFormed() && ft.Valid()
    requires Falloc(ft, dir, d, name, mode).Granted?
    requires e.handle == Falloc(ft, dir, d, name, mode).entry.handle
    requires e.iNumber == Falloc(ft, dir, d, name, mode).entry.iNumber
    ensures var r := Falloc(ft, dir, d, name, mode);
            var f := Ffree(r.table, r.disk, e);
            var before := ReadInode(d, e.iNumber);
            && f.0 && f.1 == r.table.(entries := ft.entries)
            && ReadInode(f.2, e.iNumber).count == before.count
            && ReadInode(f.2, e.iNumber).flag ==
                 (if mode != "r" || before.count == 0 then FlagUsed else FlagRead)
            && (forall j: nat :: j != e.iNumber ==> ReadInode(f.2, j) == ReadInode(d, j))
  {
    FfreeGranted(ft, d, Falloc(ft, dir, d, name, mode), mode, e);
  }

  /** The ffree half of FallocThenFfree, from what falloc promises about a granted entry. */
  lemma FfreeGranted(ft: FileTable, d: Disk, r: Allocation, mode: string, e: Entry)
    requires ft.Valid() && r.Granted?
    requires r.table.entries == ft.entries + [r.entry] && r.entry.handle == ft.nextHandle
    requires e.handle == r.entry.handle && e.iNumber == r.entry.iNumber
    requires r.entry.inode == ReadInode(d, e.iNumber).(
               flag := if mode == "r" then FlagRead else FlagWrite,
               count := Wrap16(ReadInode(d, e.iNumber).count + 1))
    requires ReadInode(r.disk, e.iNumber) == r.entry.inode
    requires forall j: nat :: j != e.iNumber ==> ReadInode(r.disk, j) == ReadInode(d, j)
    ensures var f := Ffree(r.table, r.disk, e);
            var before := ReadInode(d, e.iNumber);
            && f.0 && f.1 == r.table.(entries := ft.entries)
            && ReadInode(f.2, e.iNumber).count == before.count
            && ReadInode(f.2, e.iNumber).flag ==
                 (if mode != "r" || before.count == 0 then FlagUsed else FlagRead)
            && (forall j: nat :: j != e.iNumber ==> ReadInode(f.2, j) == ReadInode(d, j))
  {
    FfreeLast(ft.entries, r.table, r.disk, r.entry, e);
    var c := ReadInode(d, e.iNumber).count;
    Wrap16Inverse(c);
  }

  /** ffree of an entry with the newest entry's identity, which no older entry shares, removes just that one. */
  lemma FfreeLast(es: seq<Entry>, ft: FileTable, d: Disk, last: Entry, e: Entry)
    requires ft.entries == es + [last] && e.handle == last.handle
    requires forall j :: 0 <= j < |es| ==> es[j].handle != e.handle
    ensures Ffree(ft, d, e).0 && Ffree(ft, d, e).1 == ft.(entries := es)
  {
    var all := ft.entries;
    assert all[|es|].handle == e.handle;
    assert Find(all, e.handle) == |es|;
    assert all[..|es|] + all[|es| + 1..] == es;
  }

  /** Counting a user in and out again through 16-bit wrap-around gives the count back. */
  lemma Wrap16Inverse(c: int16)
    ensures Wrap16(Wrap16(c + 1) - 1) == c
    ensures Wrap16(c + 1) == 1 <==> c == 0
  {
  }
}
