/** The storage objects themselves, and how a body becomes one. */
module BodyStorageObjects {
  import opened Basics
  import opened BodyStorage

  /**
   A cursor over a byte slice. One handed out as a reader is wrapped so that
   closing it does nothing; `closed` only remembers that it was.
   */
  class SliceReader {
    const data: seq<byte>
    var pos: nat
    ghost var closed: bool
    /** Position among the readers handed out, or -1. */
    ghost const id: int

    constructor (data: seq<byte>, ghost id: int)
      ensures this.data == data && this.id == id && pos == 0 && !closed
    {
      this.data, this.id := data, id;
      pos, closed := 0, false;
    }

    method Read(n: nat) returns (a: Answer)
      modifies this`pos
      ensures a == SliceRead(data, old(pos), n) && pos == Moved(old(pos), a)
    {
      if pos >= |data| {
        return EndOfInput;
      }
      a := Data(Slice(data, pos, n));
      pos := pos + |a.bytes|;
    }

    method Seek(offset: int, whence: Whence) returns (a: Answer)
      modifies this`pos
      ensures var target := Target(data, old(pos), offset, whence);
        if target < 0 then a == BadSeek && pos == old(pos) else a == At(target) && pos == target
    {
      var target := Target(data, pos, offset, whence);
      if target < 0 {
        return BadSeek;
      }
      pos := target;
      a := At(target);
    }

    method Close() returns (a: Answer)
      modifies this`closed
      ensures a == Done && closed
    {
      closed := true;
      a := Done;
    }
  }

  ghost function SliceCursors(readers: seq<SliceReader>): seq<Reader>
    reads readers
  {
    seq(|readers|, i requires 0 <= i < |readers| reads readers => Reader(readers[i].pos, readers[i].closed))
  }

  class MemoryStorage {
    const data: seq<byte>
    const reader: SliceReader
    var closed: bool
    ghost var readers: seq<SliceReader>

    /** The storage's own cursor and the readers handed out are different objects over the same slice. */
    ghost predicate Valid()
      reads this
    {
      && reader.data == data && reader.id == -1
      && forall i :: 0 <= i < |readers| ==> readers[i].data == data && readers[i].id == i
    }

    constructor (data: seq<byte>)
      ensures Valid() && fresh(reader) && Value() == Opened(data)
    {
      this.data := data;
      reader := new SliceReader(data, -1);
      closed, readers := false, [];
    }

    ghost function Value(): Storage
      reads this, reader, readers
    {
      Storage(data, reader.pos, closed, SliceCursors(readers))
    }

    method Read(n: nat) returns (a: Answer)
      requires Valid()
      modifies reader
      ensures Valid() && (Value(), a) == MemoryStep(old(Value()), Op.Read(n))
    {
      if closed {
        return StorageClosed;
      }
      a := reader.Read(n);
    }

    method Seek(offset: int, whence: Whence) returns (a: Answer)
      requires Valid()
      modifies reader
      ensures Valid() && (Value(), a) == MemoryStep(old(Value()), Op.Seek(offset, whence))
    {
      if closed {
        return StorageClosed;
      }
      a := reader.Seek(offset, whence);
    }

    method Bytes() returns (a: Answer)
      ensures (Value(), a) == MemoryStep(Value(), Op.Bytes)
    {
      a := if closed then StorageClosed else Data(data);
    }

    method Close() returns (a: Answer)
      requires Valid()
      modifies this`closed
      ensures Valid() && (Value(), a) == MemoryStep(old(Value()), Op.Close)
    {
      closed := true;
      a := Done;
    }

    /** A fresh cursor at the start, unless the storage is closed. */
    method NewReader() returns (r: SliceReader?, ghost a: Answer)
      requires Valid()
      modifies this`readers
      ensures Valid() && (Value(), a) == MemoryStep(old(Value()), Op.NewReader)
      ensures if r == null then closed && readers == old(readers) else fresh(r) && readers == old(readers) + [r]
    {
      if closed {
        return null, StorageClosed;
      }
      a := At(|readers|);
      r := new SliceReader(data, |readers|);
      readers := readers + [r];
      assert SliceCursors(readers) == old(SliceCursors(readers)) + [Reader(0, false)];
    }
  }

  /** Reading from a reader of `m` moves its cursor and no other, closed storage or not. */
  method ReadSlice(r: SliceReader, n: nat, ghost m: MemoryStorage) returns (a: Answer)
    requires m.Valid() && 0 <= r.id < |m.readers| && m.readers[r.id] == r
    modifies r
    ensures m.Valid() && (m.Value(), a) == MemoryStep(old(m.Value()), ReadFrom(r.id, n))
  {
    a := r.Read(n);
    assert SliceCursors(m.readers) == old(SliceCursors(m.readers))[r.id := Reader(r.pos, r.closed)];
  }

  method CloseSlice(r: SliceReader, ghost m: MemoryStorage) returns (a: Answer)
    requires m.Valid() && 0 <= r.id < |m.readers| && m.readers[r.id] == r
    modifies r
    ensures m.Valid() && (m.Value(), a) == MemoryStep(old(m.Value()), CloseReader(r.id))
  {
    a := r.Close();
    assert SliceCursors(m.readers) == old(SliceCursors(m.readers))[r.id := Reader(r.pos, r.closed)];
  }

  lemma SliceGrows(data: seq<byte>, start: nat, mid: nat, n: nat)
    requires start <= mid <= |data|
    ensures data[start..mid] + Slice(data, mid, n) == data[start..mid + |Slice(data, mid, n)|]
  {
  }

  /** A file descriptor over fixed contents. */
  class File {
    const contents: seq<byte>
    var pos: nat
    var closed: bool
    /** Position among the readers handed out, or -1. */
    ghost const id: int

    constructor (contents: seq<byte>, ghost id: int)
      ensures this.contents == contents && this.id == id && pos == 0 && !closed
    {
      this.contents, this.id := contents, id;
      pos, closed := 0, false;
    }

    method Read(n: nat) returns (a: Answer)
      modifies this`pos
      ensures closed ==> a == ReaderClosed && pos == old(pos)
      ensures !closed ==> a == FileRead(contents, old(pos), n) && pos == Moved(old(pos), a)
    {
      if closed {
        return ReaderClosed;
      }
      a := FileRead(contents, pos, n);
      pos := Moved(pos, a);
    }

    method Seek(offset: int, whence: Whence) returns (a: Answer)
      modifies this`pos
      ensures closed ==> a == ReaderClosed && pos == old(pos)
      ensures !closed ==>
        var target := Target(contents, old(pos), offset, whence);
        if target < 0 then a == BadSeek && pos == old(pos) else a == At(target) && pos == target
    {
      if closed {
        return ReaderClosed;
      }
      var target := Target(contents, pos, offset, whence);
      if target < 0 {
        return BadSeek;
      }
      pos := target;
      a := At(target);
    }

    method Close() returns (a: Answer)
      modifies this`closed
      ensures closed && a == if old(closed) then ReaderClosed else Done
    {
      a := if closed then ReaderClosed else Done;
      closed := true;
    }

    /** Reads until `n` bytes have arrived or the file ends. */
    method ReadFull(n: nat) returns (bytes: seq<byte>, full: bool)
      requires pos <= |contents| && !closed
      modifies this`pos
      ensures bytes == Slice(contents, old(pos), n) && pos == old(pos) + |bytes|
      ensures full <==> |bytes| == n
    {
      bytes := [];
      ghost var start := pos;
      while |bytes| < n
        invariant start + |bytes| == pos <= |contents| && |bytes| <= n
        invariant bytes == contents[start..pos]
        decreases n - |bytes|
      {
        var a := Read(n - |bytes|);
        if a.EndOfInput? {
          return bytes, false;
        }
        SliceGrows(contents, start, pos - |a.bytes|, n - |bytes|);
        bytes := bytes + a.bytes;
      }
      full := true;
    }
  }

  ghost function FileCursors(readers: seq<File>): seq<Reader>
    reads readers
  {
    seq(|readers|, i requires 0 <= i < |readers| reads readers => Reader(readers[i].pos, readers[i].closed))
  }

  class DiskStorage {
    const file: File
    const size: nat
    var closed: bool
    ghost var readers: seq<File>

    /** The primary descriptor and the readers' are different ones over the same file. */
    ghost predicate Valid()
      reads this, file
    {
      && size == |file.contents| && file.id == -1 && file.closed == closed
      && forall i :: 0 <= i < |readers| ==> readers[i].contents == file.contents && readers[i].id == i
    }

    constructor (data: seq<byte>)
      ensures Valid() && fresh(file) && Value() == Opened(data)
    {
      file := new File(data, -1);
      size := |data|;
      closed, readers := false, [];
    }

    ghost function Value(): Storage
      reads this, file, readers
    {
      Storage(file.contents, file.pos, closed, FileCursors(readers))
    }

    method Read(n: nat) returns (a: Answer)
      requires Valid()
      modifies file
      ensures Valid() && (Value(), a) == DiskStep(old(Value()), Op.Read(n))
    {
      if closed {
        return StorageClosed;
      }
      a := file.Read(n);
    }

    method Seek(offset: int, whence: Whence) returns (a: Answer)
      requires Valid()
      modifies file
      ensures Valid() && (Value(), a) == DiskStep(old(Value()), Op.Seek(offset, whence))
    {
      if closed {
        return StorageClosed;
      }
      a := file.Seek(offset, whence);
    }

    /** Rewinds, reads everything and puts the cursor back. */
    method Bytes() returns (a: Answer)
      requires Valid()
      modifies file
      ensures Valid() && (Value(), a) == DiskStep(old(Value()), Op.Bytes)
    {
      if closed {
        return StorageClosed;
      }
      var current := file.Seek(0, FromCurrent);
      var start := file.Seek(0, FromStart);
      var bytes, full := file.ReadFull(size);
      assert bytes == file.contents;
      var back := file.Seek(current.position, FromStart);
      a := Data(bytes);
    }

    /** Only the first call closes the primary descriptor. */
    method Close() returns (a: Answer)
      requires Valid()
      modifies this`closed, file`closed
      ensures Valid() && (Value(), a) == DiskStep(old(Value()), Op.Close)
    {
      if !closed {
        closed := true;
        var answer := file.Close();
      }
      a := Done;
    }

    /** A second descriptor over the same file, unless the storage is closed. */
    method NewReader() returns (r: File?, ghost a: Answer)
      requires Valid()
      modifies this`readers
      ensures Valid() && (Value(), a) == DiskStep(old(Value()), Op.NewReader)
      ensures if r == null then closed && readers == old(readers) else fresh(r) && readers == old(readers) + [r]
    {
      if closed {
        return null, StorageClosed;
      }
      a := At(|readers|);
      r := new File(file.contents, |readers|);
      readers := readers + [r];
      assert FileCursors(readers) == old(FileCursors(readers)) + [Reader(0, false)];
    }
  }

  /** Reading from a reader of `d` moves its cursor and no other, closed storage or not. */
  method ReadFile(r: File, n: nat, ghost d: DiskStorage) returns (a: Answer)
    requires d.Valid() && 0 <= r.id < |d.readers| && d.readers[r.id] == r
    modifies r
    ensures d.Valid() && (d.Value(), a) == DiskStep(old(d.Value()), ReadFrom(r.id, n))
  {
    a := r.Read(n);
    assert FileCursors(d.readers) == old(FileCursors(d.readers))[r.id := Reader(r.pos, r.closed)];
  }

  method CloseFile(r: File, ghost d: DiskStorage) returns (a: Answer)
    requires d.Valid() && 0 <= r.id < |d.readers| && d.readers[r.id] == r
    modifies r
    ensures d.Valid() && (d.Value(), a) == DiskStep(old(d.Value()), CloseReader(r.id))
  {
    a := r.Close();
    assert FileCursors(d.readers) == old(FileCursors(d.readers))[r.id := Reader(r.pos, r.closed)];
  }

  // ---------- Creation ----------

  const MAX_INT64: int := 0x7FFF_FFFF_FFFF_FFFF

  /** The signed 64-bit integer with the same last 64 bits. */
  function Wrap64(x: int): int {
    (x + MAX_INT64 + 1) % 0x1_0000_0000_0000_0000 - MAX_INT64 - 1
  }

  function Add64(a: int, b: int): int { Wrap64(a + b) }

  /** At most `n` bytes of the input; none when `n` is not positive. */
  function Limited(input: seq<byte>, n: int): seq<byte> {
    if n <= 0 then [] else input[..Min(n, |input|)]
  }

  datatype CacheConfig = CacheConfig(enabled: bool, threshold: int, maxSize: int)

  /** `writable` says whether a cache file can be created and written. */
  datatype Environment = Environment(config: CacheConfig, usage: int, writable: bool)

  predicate CacheAvailable(e: Environment, size: int) {
    e.config.enabled && Add64(e.usage, size) <= e.config.maxSize
  }

  datatype Created = OnDisk(data: seq<byte>) | InMemory(data: seq<byte>) | TooLarge | Unwritable

  /** Falls back to memory when the cache file cannot be written. */
  function CreateFromBytes(data: seq<byte>, e: Environment): Created {
    if e.config.enabled && |data| >= e.config.threshold && CacheAvailable(e, |data|) && e.writable
    then OnDisk(data) else InMemory(data)
  }

  function CreateFromReader(input: seq<byte>, contentLength: int, maxBytes: int, e: Environment): Created {
    var read := Limited(input, Add64(maxBytes, 1));
    if e.config.enabled && contentLength > 0 && contentLength >= e.config.threshold && CacheAvailable(e, contentLength) then
      if !e.writable then Unwritable
      else if |read| > maxBytes then TooLarge
      else OnDisk(read)
    else if |read| > maxBytes then TooLarge
    else CreateFromBytes(read, e)
  }

  /**
   With a writable cache, creation keeps the whole input exactly when it fits
   the limit and the limit is not the largest integer, whose successor wraps;
   every other input over the limit is refused as too large.
   */
  lemma WholeInputIff(input: seq<byte>, contentLength: int, maxBytes: int, e: Environment)
    requires -MAX_INT64 - 1 <= maxBytes <= MAX_INT64 && e.writable
    ensures var r := CreateFromReader(input, contentLength, maxBytes, e);
      && (((r.OnDisk? || r.InMemory?) && r.data == input) <==>
            |input| <= maxBytes && (maxBytes < MAX_INT64 || input == []))
      && (r.TooLarge? <==> |input| > maxBytes && maxBytes < MAX_INT64)
  {
    var read := Limited(input, Add64(maxBytes, 1));
    if maxBytes == MAX_INT64 {
      assert Add64(maxBytes, 1) == -MAX_INT64 - 1;
      assert read == [];
    } else {
      assert Add64(maxBytes, 1) == maxBytes + 1;
      if |input| <= maxBytes { assert read == input; }
    }
  }

  /** At the largest limit every body is accepted as empty. */
  lemma LargestLimitLosesInput(input: seq<byte>, contentLength: int, e: Environment)
    requires e.writable
    ensures var r := CreateFromReader(input, contentLength, MAX_INT64, e);
      (r.OnDisk? || r.InMemory?) && r.data == []
  {
    assert Add64(MAX_INT64, 1) == -MAX_INT64 - 1;
  }

  /** The limit a request is read with: a number of megabytes, 128 if not positive, in signed 64-bit arithmetic. */
  function RequestLimit(megabytes: int): int {
    Wrap64((if megabytes <= 0 then 128 else megabytes) * 1_048_576)
  }

  /** Shifted left by twenty bits, even one that wraps is a whole number of megabytes: never the largest integer. */
  lemma RequestLimitIsEven(megabytes: int)
    ensures -MAX_INT64 - 1 <= RequestLimit(megabytes) < MAX_INT64
  {
    var x := (if megabytes <= 0 then 128 else megabytes) * 1_048_576;
    assert x % 2 == 0;
    WrapKeepsEven(x);
  }

  lemma WrapKeepsEven(x: int)
    requires x % 2 == 0
    ensures Wrap64(x) % 2 == 0
  {
    var q := (x + MAX_INT64 + 1) / 0x1_0000_0000_0000_0000;
    assert Wrap64(x) == x - 0x1_0000_0000_0000_0000 * q;
    assert Wrap64(x) == 2 * (x / 2 - 0x8000_0000_0000_0000 * q);
  }

  /** So whatever the setting, the whole input is kept if it fits the limit and refused as too large if not. */
  lemma MegabyteLimits(megabytes: int, input: seq<byte>, contentLength: int, e: Environment)
    requires e.writable
    ensures var limit := RequestLimit(megabytes);
      var r := CreateFromReader(input, contentLength, limit, e);
      if |input| <= limit then (r.OnDisk? || r.InMemory?) && r.data == input else r.TooLarge?
  {
    RequestLimitIsEven(megabytes);
    WholeInputIff(input, contentLength, RequestLimit(megabytes), e);
  }
}
