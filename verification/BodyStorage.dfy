/**
 A request body kept in memory or in a cache file. Both answer the same
 operations; one is a reader over a byte slice, the other a file descriptor.
 */
module BodyStorage {
  import opened Basics

  datatype Whence = FromStart | FromCurrent | FromEnd

  /** What an operation returns; positions and reader numbers are `At`. */
  datatype Answer =
    | Data(bytes: seq<byte>)
    | EndOfInput
    | At(position: int)
    | Done
    | StorageClosed
    | BadSeek
    | ReaderClosed
    | NoSuchReader

  function Min(a: int, b: int): int { if a < b then a else b }

  /** Up to `n` bytes from `pos`. */
  function Slice(data: seq<byte>, pos: nat, n: nat): seq<byte>
    requires pos <= |data|
  {
    data[pos..Min(pos + n, |data|)]
  }

  /** A slice reader reports the end first, even when nothing was asked for. */
  function SliceRead(data: seq<byte>, pos: nat, n: nat): Answer {
    if pos >= |data| then EndOfInput else Data(Slice(data, pos, n))
  }

  /** A file answers an empty read with no bytes and no error. */
  function FileRead(data: seq<byte>, pos: nat, n: nat): Answer {
    if n == 0 then Data([]) else if pos >= |data| then EndOfInput else Data(Slice(data, pos, n))
  }

  function Moved(pos: nat, a: Answer): nat { if a.Data? then pos + |a.bytes| else pos }

  function Target(data: seq<byte>, pos: nat, offset: int, whence: Whence): int {
    match whence
    case FromStart => offset
    case FromCurrent => pos + offset
    case FromEnd => |data| + offset
  }

  // ---------- The two storages step by step ----------

  datatype Reader = Reader(pos: nat, closed: bool)

  /** The payload, the cursor, whether it is closed, and the readers handed out. */
  datatype Storage = Storage(data: seq<byte>, pos: nat, closed: bool, readers: seq<Reader>)

  datatype Op =
    | Read(n: nat)
    | Seek(offset: int, whence: Whence)
    | Bytes
    | NewReader
    | Close
    | ReadFrom(r: nat, n: nat)
    | CloseReader(r: nat)

  /** Seeking and opening readers are alike: each reader starts at the beginning with its own cursor. */
  function Common(s: Storage, op: Op): (Storage, Answer)
    requires op.Seek? || op.NewReader? || op.Close?
  {
    match op
    case Seek(offset, whence) =>
      var target := Target(s.data, s.pos, offset, whence);
      if s.closed then (s, StorageClosed)
      else if target < 0 then (s, BadSeek)
      else (s.(pos := target), At(target))
    case NewReader =>
      if s.closed then (s, StorageClosed)
      else (s.(readers := s.readers + [Reader(0, false)]), At(|s.readers|))
    case Close => (s.(closed := true), Done)
  }

  function MemoryStep(s: Storage, op: Op): (Storage, Answer) {
    match op
    case Read(n) =>
      if s.closed then (s, StorageClosed)
      else var a := SliceRead(s.data, s.pos, n); (s.(pos := Moved(s.pos, a)), a)
    case Bytes => (s, if s.closed then StorageClosed else Data(s.data))
    case ReadFrom(r, n) =>
      if r >= |s.readers| then (s, NoSuchReader)
      else
        var a := SliceRead(s.data, s.readers[r].pos, n);
        (s.(readers := s.readers[r := s.readers[r].(pos := Moved(s.readers[r].pos, a))]), a)
    case CloseReader(r) =>
      if r >= |s.readers| then (s, NoSuchReader)
      else (s.(readers := s.readers[r := s.readers[r].(closed := true)]), Done)
    case _ => Common(s, op)
  }

  function DiskStep(s: Storage, op: Op): (Storage, Answer) {
    match op
    case Read(n) =>
      if s.closed then (s, StorageClosed)
      else var a := FileRead(s.data, s.pos, n); (s.(pos := Moved(s.pos, a)), a)
    case Bytes => (s, if s.closed then StorageClosed else Data(s.data))
    case ReadFrom(r, n) =>
      if r >= |s.readers| then (s, NoSuchReader)
      else if s.readers[r].closed then (s, ReaderClosed)
      else
        var a := FileRead(s.data, s.readers[r].pos, n);
        (s.(readers := s.readers[r := s.readers[r].(pos := Moved(s.readers[r].pos, a))]), a)
    case CloseReader(r) =>
      if r >= |s.readers| then (s, NoSuchReader)
      else if s.readers[r].closed then (s, ReaderClosed)
      else (s.(readers := s.readers[r := s.readers[r].(closed := true)]), Done)
    case _ => Common(s, op)
  }

  function Opened(data: seq<byte>): Storage { Storage(data, 0, false, []) }

  function Memory(data: seq<byte>, ops: seq<Op>): Storage {
    if ops == [] then Opened(data) else MemoryStep(Memory(data, ops[..|ops| - 1]), ops[|ops| - 1]).0
  }

  function Disk(data: seq<byte>, ops: seq<Op>): Storage {
    if ops == [] then Opened(data) else DiskStep(Disk(data, ops[..|ops| - 1]), ops[|ops| - 1]).0
  }

  // ---------- Telling them apart ----------

  /** The cursors that still matter agree. */
  ghost predicate Alike(m: Storage, d: Storage) {
    && m.data == d.data && m.pos == d.pos && m.closed == d.closed && |m.readers| == |d.readers|
    && forall r :: 0 <= r < |m.readers| ==>
         m.readers[r].closed == d.readers[r].closed && (!m.readers[r].closed ==> m.readers[r].pos == d.readers[r].pos)
  }

  /** An empty read at the end of the payload, or the use of a reader already closed. */
  predicate Telling(s: Storage, op: Op) {
    match op
    case Read(n) => !s.closed && n == 0 && s.pos >= |s.data|
    case ReadFrom(r, n) => r < |s.readers| && (s.readers[r].closed || (n == 0 && s.readers[r].pos >= |s.data|))
    case CloseReader(r) => r < |s.readers| && s.readers[r].closed
    case _ => false
  }

  lemma StepAlike(m: Storage, d: Storage, op: Op)
    requires Alike(m, d)
    ensures Alike(MemoryStep(m, op).0, DiskStep(d, op).0)
    ensures MemoryStep(m, op).1 == DiskStep(d, op).1 <==> !Telling(m, op)
  {
  }

  lemma {:induction false} RunAlike(data: seq<byte>, ops: seq<Op>)
    ensures Alike(Memory(data, ops), Disk(data, ops))
  {
    if ops != [] {
      RunAlike(data, ops[..|ops| - 1]);
      StepAlike(Memory(data, ops[..|ops| - 1]), Disk(data, ops[..|ops| - 1]), ops[|ops| - 1]);
    }
  }

  /**
   After any operations, the next answer is the same from memory and from disk
   exactly unless it is an empty read at the end or uses a closed reader.
   */
  lemma SameAnswersIff(data: seq<byte>, ops: seq<Op>, op: Op)
    ensures MemoryStep(Memory(data, ops), op).1 == DiskStep(Disk(data, ops), op).1 <==>
            !Telling(Memory(data, ops), op)
  {
    RunAlike(data, ops);
    StepAlike(Memory(data, ops), Disk(data, ops), op);
  }

  /** Reading nothing from an empty body: the end in memory, no bytes on disk. */
  lemma EmptyReadTells()
    ensures MemoryStep(Memory([], []), Read(0)).1 == EndOfInput
    ensures DiskStep(Disk([], []), Read(0)).1 == Data([])
  {
  }

  lemma RunSnoc(data: seq<byte>, ops: seq<Op>, op: Op)
    ensures Memory(data, ops + [op]) == MemoryStep(Memory(data, ops), op).0
    ensures Disk(data, ops + [op]) == DiskStep(Disk(data, ops), op).0
  {
    assert (ops + [op])[..|ops|] == ops;
  }

  /** A reader opened on a fresh storage and closed again. */
  lemma OpenedAndClosed(data: seq<byte>, ops: seq<Op>)
    requires ops == [] + [NewReader] + [CloseReader(0)]
    ensures Memory(data, ops) == Disk(data, ops) == Storage(data, 0, false, [Reader(0, true)])
  {
    var before := Storage(data, 0, false, [Reader(0, false)]);
    RunSnoc(data, [], NewReader);
    assert Memory(data, [] + [NewReader]) == before == Disk(data, [] + [NewReader]);
    RunSnoc(data, [] + [NewReader], CloseReader(0));
  }

  /** Reading from it after that: a closed descriptor refuses, a wrapped slice goes on. */
  lemma ClosedReaderTells(b: byte, ops: seq<Op>)
    requires ops == [] + [NewReader] + [CloseReader(0)]
    ensures MemoryStep(Memory([b], ops), ReadFrom(0, 1)).1 == Data([b])
    ensures DiskStep(Disk([b], ops), ReadFrom(0, 1)).1 == ReaderClosed
  {
    OpenedAndClosed([b], ops);
    assert Slice([b], 0, 1) == [b];
  }

  // ---------- A cursor of one's own ----------

  function StepOf(disk: bool, s: Storage, op: Op): (Storage, Answer) {
    if disk then DiskStep(s, op) else MemoryStep(s, op)
  }

  function Stored(disk: bool, data: seq<byte>, ops: seq<Op>): Storage {
    if disk then Disk(data, ops) else Memory(data, ops)
  }

  lemma {:induction false} PayloadConstant(disk: bool, data: seq<byte>, ops: seq<Op>)
    ensures Stored(disk, data, ops).data == data
  {
    if ops != [] { PayloadConstant(disk, data, ops[..|ops| - 1]); }
  }

  lemma ReaderKept(disk: bool, s: Storage, op: Op, r: nat)
    requires r < |s.readers| && (op.ReadFrom? ==> op.r != r) && (op.CloseReader? ==> op.r != r)
    ensures r < |StepOf(disk, s, op).0.readers| && StepOf(disk, s, op).0.readers[r] == s.readers[r]
  {
  }

  /** Nothing done to the storage or to other readers moves a reader, closing the storage included. */
  lemma {:induction false} ReadersIndependent(disk: bool, data: seq<byte>, ops: seq<Op>, more: seq<Op>, r: nat)
    requires r < |Stored(disk, data, ops).readers|
    requires forall i :: 0 <= i < |more| ==>
      (more[i].ReadFrom? ==> more[i].r != r) && (more[i].CloseReader? ==> more[i].r != r)
    ensures r < |Stored(disk, data, ops + more).readers|
    ensures Stored(disk, data, ops + more).readers[r] == Stored(disk, data, ops).readers[r]
  {
    if more == [] {
      assert ops + more == ops;
    } else {
      var last := |more| - 1;
      assert (ops + more)[..|ops + more| - 1] == ops + more[..last];
      ReadersIndependent(disk, data, ops, more[..last], r);
      ReaderKept(disk, Stored(disk, data, ops + more[..last]), more[last], r);
    }
  }

  /** The bytes an operation got out of reader `r`. */
  function Got(disk: bool, s: Storage, op: Op, r: nat): seq<byte> {
    if op.ReadFrom? && op.r == r && StepOf(disk, s, op).1.Data? then StepOf(disk, s, op).1.bytes else []
  }

  /** Everything reader `r` has delivered. */
  function Delivered(disk: bool, data: seq<byte>, ops: seq<Op>, r: nat): seq<byte> {
    if ops == [] then []
    else
      var before := ops[..|ops| - 1];
      Delivered(disk, data, before, r) + Got(disk, Stored(disk, data, before), ops[|ops| - 1], r)
  }

  /** What a reader has delivered so far is the payload up to its cursor; a reader not opened yet, nothing. */
  ghost predicate Replays(s: Storage, delivered: seq<byte>, r: nat) {
    if r < |s.readers| then s.readers[r].pos <= |s.data| && delivered == s.data[..s.readers[r].pos]
    else delivered == []
  }

  lemma ReplayStep(disk: bool, s: Storage, delivered: seq<byte>, op: Op, r: nat)
    requires Replays(s, delivered, r)
    ensures Replays(StepOf(disk, s, op).0, delivered + Got(disk, s, op, r), r)
  {
    if op.ReadFrom? && op.r == r {
      if r < |s.readers| { ReadContinues(disk, s, r, op.n); }
    } else if r < |s.readers| && !(op.CloseReader? && op.r == r) {
      ReaderKept(disk, s, op, r);
    }
  }

  lemma ReadContinues(disk: bool, s: Storage, r: nat, n: nat)
    requires r < |s.readers| && s.readers[r].pos <= |s.data|
    ensures var t := StepOf(disk, s, ReadFrom(r, n)).0;
      && r < |t.readers| && t.data == s.data
      && s.readers[r].pos <= t.readers[r].pos <= |s.data|
      && s.data[..t.readers[r].pos] == s.data[..s.readers[r].pos] + Got(disk, s, ReadFrom(r, n), r)
  {
  }

  /**
   Every reader replays the body: whatever is done in between to the storage
   and to other readers, the bytes it has delivered are the payload up to its
   cursor, without gap or repetition.
   */
  lemma {:induction false} ReaderReplays(disk: bool, data: seq<byte>, ops: seq<Op>, r: nat)
    ensures Stored(disk, data, ops).data == data
    ensures Replays(Stored(disk, data, ops), Delivered(disk, data, ops, r), r)
  {
    PayloadConstant(disk, data, ops);
    if ops != [] {
      var before := ops[..|ops| - 1];
      ReaderReplays(disk, data, before, r);
      ReplayStep(disk, Stored(disk, data, before), Delivered(disk, data, before, r), ops[|ops| - 1], r);
    }
  }

  /** An open reader with payload left always makes progress. */
  lemma ReadProgresses(disk: bool, s: Storage, r: nat, n: nat)
    requires r < |s.readers| && !s.readers[r].closed && 0 < n && s.readers[r].pos < |s.data|
    ensures StepOf(disk, s, ReadFrom(r, n)).0.readers[r].pos > s.readers[r].pos
  {
  }
}
