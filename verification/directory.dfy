/**
 * The flat directory: slot `i` holds the name of the file whose inode
 * number is `i`. A slot is free when its recorded name length is 0; slot 0
 * is the root "/". Names are kept in fixed 30-character buffers.
 */
module Directories {
  import opened Bytes
  import opened Options

  /** Characters kept per name. */
  const MaxChars: nat := 30
  /** Bytes reserved per name in the serialised form. */
  const MaxJava: nat := 60
  /** Serialised bytes per slot: a 4-byte length plus the name field. */
  const ByteAlloc: nat := 64
  /** Slots reachable by the source's `short` loop counter. */
  const MaxSlots: nat := 0x7FFF

  datatype Directory = Directory(sizes: seq<int>, names: seq<seq<char>>)
  {
    predicate WellFormed()
    {
      && |sizes| == |names| <= MaxSlots
      && (forall i :: 0 <= i < |sizes| ==> 0 <= sizes[i] <= MaxChars)
      && (forall i :: 0 <= i < |names| ==> |names[i]| == MaxChars)
    }

    function Capacity(): nat
    {
      |sizes|
    }
  }

  /** The name stored in slot `i`: the first sizes[i] characters of its buffer. */
  function LiveName(dir: Directory, i: nat): string
    requires dir.WellFormed() && i < dir.Capacity()
  {
    dir.names[i][..dir.sizes[i]]
  }

  /** The exact length-and-content match namei tests for. */
  predicate Holds(dir: Directory, i: nat, name: string)
    requires dir.WellFormed() && i < dir.Capacity()
  {
    dir.sizes[i] == |name| && LiveName(dir, i) == name
  }

  /** Directory(maxInumber): every slot free except the root "/" in slot 0. */
  function NewDirectory(n: int): (r: Outcome<Directory>)
    requires n <= MaxSlots
    ensures r.Throws? <==> n < 1
    ensures r.Returns? ==> && r.value.WellFormed()
                           && r.value.Capacity() == n
                           && LiveName(r.value, 0) == "/"
                           && (forall i :: 1 <= i < n ==> r.value.sizes[i] == 0)
  {
    if n < 1 then Throws
    else
      var blank := seq(MaxChars, k => 0 as char);
      Returns(Directory(seq(n, i => if i == 0 then 1 else 0),
                        seq(n, i => if i == 0 then ['/'] + blank[1..] else blank)))
  }

  /**
   * A new directory answers to "/" at slot 0 without any other slot taken,
   * so with room for more than the root the first file goes to slot 1.
   */
  lemma NewDirectoryRoot(n: int, name: string)
    requires 1 <= n <= MaxSlots
    ensures Namei(NewDirectory(n).value, "/") == 0
    ensures n > 1 ==> Ialloc(NewDirectory(n).value, name).0 == 1
    ensures n == 1 ==> Ialloc(NewDirectory(n).value, name).0 == -1
  {
    var dir := NewDirectory(n).value;
    assert Holds(dir, 0, "/");
    if n > 1 {
      assert dir.sizes[0] != 0 && dir.sizes[1] == 0;
    }
  }

  // ---------------------------------------------------------------------
  // ialloc, namei, ifree

  /** Lowest free slot at or after `from`, or -1. */
  function FirstFree(sizes: seq<int>, from: nat): (r: int)
    requires from <= |sizes|
    ensures r == -1 || (from <= r < |sizes| && sizes[r] == 0)
    ensures r == -1 ==> forall k :: from <= k < |sizes| ==> sizes[k] != 0
    ensures r != -1 ==> forall k :: from <= k < r ==> sizes[k] != 0
    decreases |sizes| - from
  {
    if from == |sizes| then -1
    else if sizes[from] == 0 then from
    else FirstFree(sizes, from + 1)
  }

  /**
   * ialloc(filename): claim the lowest free slot for the name cut to 30
   * characters and return its index, or -1 when every slot is taken.
   */
  function Ialloc(dir: Directory, name: string): (r: (int, Directory))
    requires dir.WellFormed()
    ensures r.1.WellFormed() && r.1.Capacity() == dir.Capacity()
    ensures r.0 == -1 <==> forall k :: 0 <= k < dir.Capacity() ==> dir.sizes[k] != 0
    ensures r.0 == -1 ==> r.1 == dir
    ensures r.0 != -1 ==>
              && 0 <= r.0 < dir.Capacity()
              && dir.sizes[r.0] == 0
              && (forall k :: 0 <= k < r.0 ==> dir.sizes[k] != 0)
              && r.1.sizes[r.0] == Min(|name|, MaxChars)
              && LiveName(r.1, r.0) == name[..Min(|name|, MaxChars)]
              && (forall k :: 0 <= k < dir.Capacity() && k != r.0 ==>
                    r.1.sizes[k] == dir.sizes[k] && r.1.names[k] == dir.names[k])
  {
    var i := FirstFree(dir.sizes, 0);
    if i < 0 then (-1, dir)
    else
      var fs := Min(|name|, MaxChars);
      var buffer := name[..fs] + dir.names[i][fs..];
      assert buffer[..fs] == name[..fs];
      (i, dir.(sizes := dir.sizes[i := fs], names := dir.names[i := buffer]))
  }

  /** Lowest slot at or after `from` holding `name`, or -1. */
  function FirstHolding(dir: Directory, name: string, from: nat): (r: int)
    requires dir.WellFormed() && from <= dir.Capacity()
    ensures r == -1 || (from <= r < dir.Capacity() && Holds(dir, r, name))
    ensures r == -1 ==> forall k :: from <= k < dir.Capacity() ==> !Holds(dir, k, name)
    ensures r != -1 ==> forall k :: from <= k < r ==> !Holds(dir, k, name)
    decreases dir.Capacity() - from
  {
    if from == dir.Capacity() then -1
    else if dir.sizes[from] == |name| && LiveName(dir, from) == name then from
    else FirstHolding(dir, name, from + 1)
  }

  /** namei(filename): the lowest slot holding exactly this name, or -1. */
  function Namei(dir: Directory, name: string): (r: int)
    requires dir.WellFormed()
    ensures r == -1 <==> forall k :: 0 <= k < dir.Capacity() ==> !Holds(dir, k, name)
    ensures r != -1 ==> && 0 <= r < dir.Capacity() && Holds(dir, r, name)
                        && forall k :: 0 <= k < r ==> !Holds(dir, k, name)
  {
    FirstHolding(dir, name, 0)
  }

  /**
   * After ialloc(name) hands out slot i, namei(name) finds slot i, provided
   * the name fits in 30 characters and no occupied slot already holds it.
   */
  lemma IallocThenNamei(dir: Directory, name: string)
    requires dir.WellFormed() && |name| <= MaxChars
    requires forall k :: 0 <= k < dir.Capacity() && dir.sizes[k] != 0 ==> !Holds(dir, k, name)
    requires Ialloc(dir, name).0 != -1
    ensures Namei(Ialloc(dir, name).1, name) == Ialloc(dir, name).0
  {
    var (i, dir') := Ialloc(dir, name);
    assert Holds(dir', i, name);
    forall k | 0 <= k < i
      ensures !Holds(dir', k, name)
    {
      assert dir'.sizes[k] == dir.sizes[k] && dir'.names[k] == dir.names[k];
      assert LiveName(dir', k) == LiveName(dir, k);
    }
  }

  /**
   * ifree(iNumber): release a slot. The bound tested is the name width 30,
   * not the directory capacity: an index below 30 but past the capacity,
   * or negative, indexes out of the array and throws.
   */
  function Ifree(dir: Directory, i: int16): (r: Outcome<(bool, Directory)>)
    requires dir.WellFormed()
    ensures r.Throws? <==> i < MaxChars && (i < 0 || i >= dir.Capacity())
    ensures !r.Loops?
    ensures r.Returns? && r.value.0 <==> 0 <= i < MaxChars && i < dir.Capacity() && dir.sizes[i] > 0
    ensures r.Returns? && r.value.0 ==>
              r.value.1 == dir.(sizes := dir.sizes[i := 0]) && r.value.1.WellFormed()
    ensures r.Returns? && !r.value.0 ==> r.value.1 == dir
  {
    if i < MaxChars as int then
      if i < 0 || i >= dir.Capacity() then Throws
      else if dir.sizes[i] > 0 then Returns((true, dir.(sizes := dir.sizes[i := 0])))
      else Returns((false, dir))
    else Returns((false, dir))
  }

  /** Slots from 30 upward can never be freed, however they are occupied. */
  lemma IfreeIgnoresHighSlots(dir: Directory, i: int16)
    requires dir.WellFormed() && MaxChars <= i < dir.Capacity() && dir.sizes[i] > 0
    ensures Ifree(dir, i) == Returns((false, dir))
    ensures Namei(dir, LiveName(dir, i)) != -1
  {
    assert Holds(dir, i, LiveName(dir, i));
  }

  /** A freed slot no longer answers to any non-empty name, and ialloc may hand it out again. */
  lemma IfreeThenNamei(dir: Directory, i: int16, name: string)
    requires dir.WellFormed() && Ifree(dir, i).Returns? && Ifree(dir, i).value.0
    requires |name| > 0
    ensures Namei(Ifree(dir, i).value.1, name) != i as int
    ensures Ialloc(Ifree(dir, i).value.1, name).0 <= i as int
  {
    var dir' := Ifree(dir, i).value.1;
    assert dir'.sizes[i] == 0;
    assert !Holds(dir', i as int, name);
  }

  // ---------------------------------------------------------------------
  // Serialisation: capacity 4-byte lengths, then capacity 60-byte name fields

  /** A character the serialisation stores in one byte. */
  predicate SingleByte(c: char)
  {
    c as int < 128
  }

  predicate SingleByteNames(dir: Directory)
    requires dir.WellFormed()
  {
    forall i, k :: 0 <= i < dir.Capacity() && 0 <= k < dir.sizes[i] ==> SingleByte(dir.names[i][k])
  }

  /** Offset of slot i's name field in the image of a directory of capacity n. */
  function NameFieldOffset(n: nat, i: nat): (r: nat)
    ensures i < n ==> r + MaxJava <= ByteAlloc * n
  {
    4 * n + 60 * i
  }

  /** Byte k of the image: the length ints first, then each name padded with zeros. */
  function ImageByte(dir: Directory, k: nat): byte
    requires dir.WellFormed() && SingleByteNames(dir) && k < ByteAlloc * dir.Capacity()
  {
    var n := dir.Capacity();
    if k < 4 * n then IntToBytes(dir.sizes[k / 4])[k % 4]
    else
      var i := (k - 4 * n) / MaxJava;
      var c := (k - 4 * n) % MaxJava;
      if c < dir.sizes[i] then dir.names[i][c] as int else 0
  }

  lemma DivMod4(q: nat, c: nat)
    requires 0 <= c < 4
    ensures (4 * q + c) / 4 == q && (4 * q + c) % 4 == c
  {
  }

  lemma DivMod60(q: nat, c: nat)
    requires 0 <= c < 60
    ensures (60 * q + c) / 60 == q && (60 * q + c) % 60 == c
  {
  }

  /**
   * directory2bytes: 64 bytes per slot; slot i's length at offset 4i and
   * its name, zero padded, in the 60-byte field at 4n + 60i.
   */
  function Directory2Bytes(dir: Directory): (r: seq<byte>)
    requires dir.WellFormed() && SingleByteNames(dir)
    ensures |r| == ByteAlloc * dir.Capacity()
    ensures forall i :: 0 <= i < dir.Capacity() ==> IntAt(r, 4 * i) == dir.sizes[i]
    ensures forall i, c :: 0 <= i < dir.Capacity() && 0 <= c < MaxJava ==>
              r[NameFieldOffset(dir.Capacity(), i) + c] == (if c < dir.sizes[i] then dir.names[i][c] as int else 0)
  {
    var r := seq(ByteAlloc * dir.Capacity(), k requires 0 <= k < ByteAlloc * dir.Capacity() => ImageByte(dir, k));
    ImageLengths(dir, r);
    ImageNames(dir, r);
    r
  }

  lemma ImageLengths(dir: Directory, r: seq<byte>)
    requires dir.WellFormed() && SingleByteNames(dir)
    requires |r| == ByteAlloc * dir.Capacity()
    requires forall k :: 0 <= k < |r| ==> r[k] == ImageByte(dir, k)
    ensures forall i :: 0 <= i < dir.Capacity() ==> IntAt(r, 4 * i) == dir.sizes[i]
  {
    forall i | 0 <= i < dir.Capacity()
      ensures IntAt(r, 4 * i) == dir.sizes[i]
    {
      ImageLength(dir, r, i);
    }
  }

  /** Slot i's length reads back from offset 4i of the image. */
  lemma ImageLength(dir: Directory, r: seq<byte>, i: nat)
    requires dir.WellFormed() && SingleByteNames(dir) && i < dir.Capacity()
    requires |r| == ByteAlloc * dir.Capacity()
    requires forall k :: 0 <= k < |r| ==> r[k] == ImageByte(dir, k)
    ensures IntAt(r, 4 * i) == dir.sizes[i]
  {
    forall j | 0 <= j < 4
      ensures r[4 * i + j] == IntToBytes(dir.sizes[i])[j]
    {
      LengthByte(dir, i, j);
    }
    assert r[4 * i..4 * i + 4] == IntToBytes(dir.sizes[i]);
    IntRoundTrip(dir.sizes[i]);
  }

  /** Byte j of slot i's length field holds byte j of the length. */
  lemma LengthByte(dir: Directory, i: nat, j: nat)
    requires dir.WellFormed() && SingleByteNames(dir) && i < dir.Capacity() && j < 4
    ensures 4 * i + j < ByteAlloc * dir.Capacity()
    ensures ImageByte(dir, 4 * i + j) == IntToBytes(dir.sizes[i])[j]
  {
    DivMod4(i, j);
  }

  lemma ImageNames(dir: Directory, r: seq<byte>)
    requires dir.WellFormed() && SingleByteNames(dir)
    requires |r| == ByteAlloc * dir.Capacity()
    requires forall k :: 0 <= k < |r| ==> r[k] == ImageByte(dir, k)
    ensures forall i, c :: 0 <= i < dir.Capacity() && 0 <= c < MaxJava ==>
              r[NameFieldOffset(dir.Capacity(), i) + c] == (if c < dir.sizes[i] then dir.names[i][c] as int else 0)
  {
    var n := dir.Capacity();
    forall i, c | 0 <= i < n && 0 <= c < MaxJava
      ensures r[NameFieldOffset(n, i) + c] == (if c < dir.sizes[i] then dir.names[i][c] as int else 0)
    {
      var k := NameFieldOffset(n, i) + c;
      assert k - 4 * n == 60 * i + c;
      DivMod60(i, c);
    }
  }

  /** Characters of a byte string, one per byte. */
  function DecodeChars(b: seq<byte>): (s: string)
    ensures |s| == |b|
    ensures forall k :: 0 <= k < |b| ==> s[k] as int == b[k]
  {
    seq(|b|, k requires 0 <= k < |b| => b[k] as char)
  }

  /**
   * bytes2directory(data): reload every slot's length and name characters
   * from an image. It throws when the data is short or a stored length
   * does not fit a name buffer; characters past a name's length keep their
   * previous contents.
   */
  function Bytes2Directory(dir: Directory, data: seq<byte>): (r: Outcome<Directory>)
    requires dir.WellFormed()
    ensures !r.Loops?
    ensures r.Returns? ==> r.value.WellFormed() && r.value.Capacity() == dir.Capacity()
    ensures r.Returns? <==> && |data| >= ByteAlloc * dir.Capacity()
                            && forall i :: 0 <= i < dir.Capacity() ==> 0 <= StoredSizes(data, dir.Capacity())[i] <= MaxChars
    ensures r.Returns? ==> && |data| >= ByteAlloc * dir.Capacity()
                           && forall i :: 0 <= i < dir.Capacity() ==> r.value.sizes[i] == IntAt(data, 4 * i)
    ensures r.Returns? ==> forall i :: 0 <= i < dir.Capacity() ==>
              && LiveName(r.value, i) == DecodeChars(data[NameFieldOffset(dir.Capacity(), i)..][..r.value.sizes[i]])
              && r.value.names[i][r.value.sizes[i]..] == dir.names[i][r.value.sizes[i]..]
  {
    var n := dir.Capacity();
    if |data| < ByteAlloc * n then Throws
    else
      var sizes := StoredSizes(data, n);
      if exists i :: 0 <= i < n && !(0 <= sizes[i] <= MaxChars) then Throws
      else
        StoredNamesSplit(dir, data, sizes);
        Returns(Directory(sizes, StoredNames(dir, data, sizes)))
  }

  /** The n length ints at the front of an image. */
  function StoredSizes(data: seq<byte>, n: nat): (sizes: seq<int>)
    requires 4 * n <= |data|
    ensures |sizes| == n
    ensures forall i :: 0 <= i < n ==> sizes[i] == IntAt(data, 4 * i)
  {
    seq(n, i requires 0 <= i < n => IntAt(data, 4 * i) as int)
  }

  /** Each name buffer with its first sizes[i] characters reloaded from the image. */
  function StoredNames(dir: Directory, data: seq<byte>, sizes: seq<int>): (names: seq<seq<char>>)
    requires dir.WellFormed() && |sizes| == dir.Capacity() && ByteAlloc * dir.Capacity() <= |data|
    requires forall i :: 0 <= i < |sizes| ==> 0 <= sizes[i] <= MaxChars
    ensures |names| == |sizes|
    ensures forall i :: 0 <= i < |sizes| ==>
              names[i] == DecodeChars(data[NameFieldOffset(|sizes|, i)..NameFieldOffset(|sizes|, i) + sizes[i]])
                          + dir.names[i][sizes[i]..]
    ensures forall i :: 0 <= i < |sizes| ==> |names[i]| == MaxChars
  {
    seq(|sizes|, i requires 0 <= i < |sizes| =>
      DecodeChars(data[NameFieldOffset(|sizes|, i)..NameFieldOffset(|sizes|, i) + sizes[i]]) + dir.names[i][sizes[i]..])
  }

  /** Each reloaded name: the decoded characters up to its length, the old buffer after. */
  lemma StoredNamesSplit(dir: Directory, data: seq<byte>, sizes: seq<int>)
    requires dir.WellFormed() && |sizes| == dir.Capacity() && ByteAlloc * dir.Capacity() <= |data|
    requires forall i :: 0 <= i < |sizes| ==> 0 <= sizes[i] <= MaxChars
    ensures forall i :: 0 <= i < |sizes| ==>
              && StoredNames(dir, data, sizes)[i][..sizes[i]] == DecodeChars(data[NameFieldOffset(|sizes|, i)..][..sizes[i]])
              && StoredNames(dir, data, sizes)[i][sizes[i]..] == dir.names[i][sizes[i]..]
  {
    forall i | 0 <= i < |sizes|
      ensures StoredNames(dir, data, sizes)[i][..sizes[i]] == DecodeChars(data[NameFieldOffset(|sizes|, i)..][..sizes[i]])
      ensures StoredNames(dir, data, sizes)[i][sizes[i]..] == dir.names[i][sizes[i]..]
    {
      StoredNameSplits(dir, data, sizes, i);
    }
  }

  lemma StoredNameSplits(dir: Directory, data: seq<byte>, sizes: seq<int>, i: nat)
    requires dir.WellFormed() && |sizes| == dir.Capacity() && ByteAlloc * dir.Capacity() <= |data|
    requires forall i :: 0 <= i < |sizes| ==> 0 <= sizes[i] <= MaxChars
    requires i < |sizes|
    ensures StoredNames(dir, data, sizes)[i][..sizes[i]] == DecodeChars(data[NameFieldOffset(|sizes|, i)..][..sizes[i]])
    ensures StoredNames(dir, data, sizes)[i][sizes[i]..] == dir.names[i][sizes[i]..]
  {
    var off := NameFieldOffset(|sizes|, i);
    var dec := DecodeChars(data[off..off + sizes[i]]);
    assert data[off..][..sizes[i]] == data[off..off + sizes[i]];
    assert StoredNames(dir, data, sizes)[i] == dec + dir.names[i][sizes[i]..];
    assert (dec + dir.names[i][sizes[i]..])[..sizes[i]] == dec;
  }

  /**
   * Reloading an image restores every length and every stored name, over
   * any directory of the same capacity; over the directory itself it gives
   * back exactly that directory.
   */
  lemma DirectoryRoundTrip(other: Directory, dir: Directory)
    requires dir.WellFormed() && SingleByteNames(dir)
    requires other.WellFormed() && other.Capacity() == dir.Capacity()
    ensures Bytes2Directory(other, Directory2Bytes(dir)).Returns?
    ensures Bytes2Directory(other, Directory2Bytes(dir)).value.sizes == dir.sizes
    ensures forall i :: 0 <= i < dir.Capacity() ==>
              LiveName(Bytes2Directory(other, Directory2Bytes(dir)).value, i) == LiveName(dir, i)
    ensures Bytes2Directory(dir, Directory2Bytes(dir)) == Returns(dir)
  {
    NamesRestored(other, dir);
    var r := Bytes2Directory(other, Directory2Bytes(dir)).value;
    forall i | 0 <= i < dir.Capacity()
      ensures LiveName(r, i) == LiveName(dir, i)
    {
      assert r.names[i] == LiveName(dir, i) + other.names[i][dir.sizes[i]..];
    }
    ReloadOwnImage(dir);
  }

  lemma ReloadOwnImage(dir: Directory)
    requires dir.WellFormed() && SingleByteNames(dir)
    ensures Bytes2Directory(dir, Directory2Bytes(dir)) == Returns(dir)
  {
    NamesRestored(dir, dir);
    var out := Bytes2Directory(dir, Directory2Bytes(dir));
    var r := out.value;
    forall i | 0 <= i < dir.Capacity()
      ensures r.names[i] == dir.names[i]
    {
      var k := dir.sizes[i];
      assert r.names[i] == dir.names[i][..k] + dir.names[i][k..];
    }
    assert |r.names| == |dir.names|;
    assert r.names == dir.names;
    assert r.sizes == dir.sizes;
    assert out == Returns(r);
  }

  lemma NamesRestored(other: Directory, dir: Directory)
    requires dir.WellFormed() && SingleByteNames(dir)
    requires other.WellFormed() && other.Capacity() == dir.Capacity()
    ensures Bytes2Directory(other, Directory2Bytes(dir)).Returns?
    ensures Bytes2Directory(other, Directory2Bytes(dir)).value.sizes == dir.sizes
    ensures forall i :: 0 <= i < dir.Capacity() ==>
              Bytes2Directory(other, Directory2Bytes(dir)).value.names[i]
                == LiveName(dir, i) + other.names[i][dir.sizes[i]..]
  {
    var n := dir.Capacity();
    var img := Directory2Bytes(dir);
    var sizes := StoredSizes(img, n);
    assert sizes == dir.sizes;
    forall i | 0 <= i < n
      ensures StoredNames(other, img, dir.sizes)[i] == LiveName(dir, i) + other.names[i][dir.sizes[i]..]
    {
      NameRestored(other, dir, img, i);
    }
  }

  /** One name field of a directory's own image decodes to that slot's live name. */
  lemma NameRestored(other: Directory, dir: Directory, img: seq<byte>, i: nat)
    requires dir.WellFormed() && SingleByteNames(dir)
    requires other.WellFormed() && other.Capacity() == dir.Capacity()
    requires img == Directory2Bytes(dir) && i < dir.Capacity()
    ensures StoredNames(other, img, dir.sizes)[i] == LiveName(dir, i) + other.names[i][dir.sizes[i]..]
  {
    var n := dir.Capacity();
    forall c | 0 <= c < dir.sizes[i]
      ensures img[NameFieldOffset(n, i) + c] == dir.names[i][c] as int
    {
      assert 0 <= c < MaxJava;
    }
    NameFieldDecodes(dir, img, i);
  }

  lemma NameFieldDecodes(dir: Directory, img: seq<byte>, i: nat)
    requires dir.WellFormed() && i < dir.Capacity()
    requires NameFieldOffset(dir.Capacity(), i) + dir.sizes[i] <= |img|
    requires forall c :: 0 <= c < dir.sizes[i] ==> img[NameFieldOffset(dir.Capacity(), i) + c] == dir.names[i][c] as int
    ensures DecodeChars(img[NameFieldOffset(dir.Capacity(), i)..NameFieldOffset(dir.Capacity(), i) + dir.sizes[i]])
              == LiveName(dir, i)
  {
    var off := NameFieldOffset(dir.Capacity(), i);
    var size := dir.sizes[i];
    var field := img[off..off + size];
    var chars := DecodeChars(field);
    var live := LiveName(dir, i);
    forall c | 0 <= c < size
      ensures chars[c] == live[c]
    {
      assert field[c] == img[off + c];
    }
  }
}
