/** The storage's own cursor, what closing it means, and where a body is put. */
module BodyStorageCursor {
  import opened Basics
  import opened BodyStorage
  import opened BodyStorageObjects

  // ---------- Single operations ----------

  /** A seek is relative to the start, the cursor or the end; a negative target is refused and moves nothing. */
  lemma SeekLands(disk: bool, s: Storage, offset: int, whence: Whence)
    requires !s.closed
    ensures var (t, a) := StepOf(disk, s, Op.Seek(offset, whence));
      var base := if whence.FromStart? then 0 else if whence.FromCurrent? then s.pos else |s.data|;
      if base + offset < 0 then a == BadSeek && t == s
      else a == At(base + offset) && t == s.(pos := base + offset)
  {
  }

  /** A read delivers as much as was asked for or is left, and moves the cursor behind it. */
  lemma ReadDelivers(disk: bool, s: Storage, n: nat)
    requires !s.closed && s.pos < |s.data| && 0 < n
    ensures var (t, a) := StepOf(disk, s, Op.Read(n));
      var end := if n < |s.data| - s.pos then s.pos + n else |s.data|;
      a == Data(s.data[s.pos..end]) && t == s.(pos := end)
  {
  }

  /** At or behind the end there is nothing to read. */
  lemma ReadAtEnd(disk: bool, s: Storage, n: nat)
    requires !s.closed && |s.data| <= s.pos && 0 < n
    ensures StepOf(disk, s, Op.Read(n)) == (s, EndOfInput)
  {
  }

  /** All bytes, wherever the cursor is, and it stays there. */
  lemma BytesAreAll(disk: bool, s: Storage)
    requires !s.closed
    ensures StepOf(disk, s, Op.Bytes) == (s, Data(s.data))
  {
  }

  /** A new reader starts at the beginning, behind the others. */
  lemma NewReaderStarts(disk: bool, s: Storage)
    requires !s.closed
    ensures StepOf(disk, s, Op.NewReader) == (s.(readers := s.readers + [Reader(0, false)]), At(|s.readers|))
  {
  }

  // ---------- Closing ----------

  lemma StepCloses(disk: bool, s: Storage, op: Op)
    ensures StepOf(disk, s, op).0.closed <==> s.closed || op.Close?
  {
  }

  /** A storage is closed exactly when it was closed at some time, however often. */
  lemma {:induction false} ClosedIff(disk: bool, data: seq<byte>, ops: seq<Op>)
    ensures Stored(disk, data, ops).closed <==> exists i :: 0 <= i < |ops| && ops[i].Close?
  {
    if ops != [] {
      var last := |ops| - 1;
      ClosedIff(disk, data, ops[..last]);
      StepCloses(disk, Stored(disk, data, ops[..last]), ops[last]);
      if i :| 0 <= i < last && ops[..last][i].Close? { assert ops[i].Close?; }
    }
  }

  /** Exactly then the storage refuses everything but closing it again; its readers go on. */
  lemma RefusesIffClosed(disk: bool, s: Storage, op: Op)
    ensures StepOf(disk, s, op).1.StorageClosed? <==> s.closed && (op.Read? || op.Seek? || op.Bytes? || op.NewReader?)
    ensures s.closed ==> StepOf(disk, s, op).0 == s.(readers := StepOf(disk, s, op).0.readers)
  {
  }

  // ---------- The cursor over whole runs ----------

  /** Where the last seek that succeeded led, or the start. */
  function Origin(disk: bool, data: seq<byte>, ops: seq<Op>): nat {
    if ops == [] then 0
    else
      var before, op := ops[..|ops| - 1], ops[|ops| - 1];
      var a := StepOf(disk, Stored(disk, data, before), op).1;
      if op.Seek? && a.At? && a.position >= 0 then a.position else Origin(disk, data, before)
  }

  /** What was read through the storage's own cursor since then. */
  function ReadSince(disk: bool, data: seq<byte>, ops: seq<Op>): seq<byte> {
    if ops == [] then []
    else
      var before, op := ops[..|ops| - 1], ops[|ops| - 1];
      var a := StepOf(disk, Stored(disk, data, before), op).1;
      if op.Seek? && a.At? then []
      else ReadSince(disk, data, before) + if op.Read? && a.Data? then a.bytes else []
  }

  ghost predicate Follows(s: Storage, origin: nat, bytes: seq<byte>) {
    if origin <= |s.data| then origin <= s.pos <= |s.data| && bytes == s.data[origin..s.pos]
    else s.pos == origin && bytes == []
  }

  lemma FollowsStep(disk: bool, s: Storage, op: Op, origin: nat, bytes: seq<byte>)
    requires Follows(s, origin, bytes)
    ensures var (t, a) := StepOf(disk, s, op);
      if op.Seek? && a.At? then a.position >= 0 && Follows(t, a.position, [])
      else Follows(t, origin, bytes + if op.Read? && a.Data? then a.bytes else [])
  {
    if op.Read? && !s.closed {
      if op.n > 0 && s.pos < |s.data| { ReadDelivers(disk, s, op.n); }
    }
  }

  /**
   Over every run of operations the bytes read since the last seek are the
   payload from where it led up to the cursor; a seek behind the end yields
   nothing.
   */
  lemma {:induction false} CursorFollows(disk: bool, data: seq<byte>, ops: seq<Op>)
    ensures Stored(disk, data, ops).data == data
    ensures Follows(Stored(disk, data, ops), Origin(disk, data, ops), ReadSince(disk, data, ops))
  {
    PayloadConstant(disk, data, ops);
    if ops != [] {
      var before := ops[..|ops| - 1];
      CursorFollows(disk, data, before);
      FollowsStep(disk, Stored(disk, data, before), ops[|ops| - 1], Origin(disk, data, before), ReadSince(disk, data, before));
    }
  }

  // ---------- Memory or disk ----------

  /** A size the cache is for, and has room for. */
  predicate Cacheable(e: Environment, size: int) {
    e.config.enabled && size >= e.config.threshold && e.usage + size <= e.config.maxSize
  }

  lemma NoWrap(e: Environment, size: int)
    requires 0 <= e.usage && 0 <= size && e.usage + size <= MAX_INT64
    ensures CacheAvailable(e, size) <==> e.config.enabled && e.usage + size <= e.config.maxSize
  {
  }

  /** Known bytes go to disk exactly when the cache is for them, has room and can be written. */
  lemma BytesPlacement(data: seq<byte>, e: Environment)
    requires 0 <= e.usage && e.usage + |data| <= MAX_INT64
    ensures CreateFromBytes(data, e) == if Cacheable(e, |data|) && e.writable then OnDisk(data) else InMemory(data)
  {
    NoWrap(e, |data|);
  }

  /**
   A body that fits goes to disk by its announced length, or else by its own;
   only an announced one fails when the cache cannot be written.
   */
  lemma ReaderPlacement(input: seq<byte>, contentLength: int, maxBytes: int, e: Environment)
    requires 0 <= e.usage && e.usage + contentLength <= MAX_INT64 && e.usage + |input| <= MAX_INT64
    requires |input| <= maxBytes < MAX_INT64
    ensures CreateFromReader(input, contentLength, maxBytes, e) ==
      if contentLength > 0 && Cacheable(e, contentLength) then (if e.writable then OnDisk(input) else Unwritable)
      else if Cacheable(e, |input|) && e.writable then OnDisk(input)
      else InMemory(input)
  {
    if contentLength > 0 { NoWrap(e, contentLength); }
    BytesPlacement(input, e);
    assert Add64(maxBytes, 1) == maxBytes + 1;
    assert Limited(input, maxBytes + 1) == input;
  }

  /** The limit in bytes: the setting in megabytes as long as it does not wrap, 128 if it is not positive. */
  lemma LimitInBytes(megabytes: int)
    ensures megabytes <= 0 ==> RequestLimit(megabytes) == 134_217_728
    ensures 0 < megabytes < 0x800_0000_0000 ==> RequestLimit(megabytes) == megabytes * 1_048_576
  {
  }
}
