/** The write-ahead log file: appending, syncing, reopening, and replaying it into a Merkle range. */
module WalStore {
  import opened Wrappers
  import opened WalRecord
  import opened Binary
  import opened MmrSpec
  import opened MmrRuns
  import opened Mmr

  const HEADER_SIZE: nat := 256

  const MAGIC: seq<byte> := [0x4E, 0x45, 0x58, 0x4F, 0x5F, 0x57, 0x41, 0x4C]

  function Header(): (h: seq<byte>)
    ensures |h| == HEADER_SIZE
  {
    MAGIC + WriteU64(1) + Zeros(240)
  }

  /** An open log: the file's bytes, where the next write goes unless it is forced to the end, and the next timestamp. */
  datatype Disk = Disk(file: seq<byte>, cursor: nat, appending: bool, monotonic: U64)

  datatype WalOp =
    | Write(recordType: RecordType, leafIndex: U64, hash: Hash, contentId: U64)
    | Sync

  predicate Usable(d: Disk) {
    d.appending || d.cursor <= |d.file|
  }

  /** The counter wraps around like the atomic it models. */
  function NextStamp(ts: U64): U64 {
    if ts + 1 == 0x1_0000_0000_0000_0000 then 0 else ts + 1
  }

  function Overwrite(file: seq<byte>, at: nat, buf: seq<byte>): (f: seq<byte>)
    requires at <= |file|
    ensures |f| == if at + |buf| <= |file| then |file| else at + |buf|
    ensures forall i :: 0 <= i < |f| ==> f[i] == if at <= i < at + |buf| then buf[i - at] else file[i]
  {
    file[..at] + buf + if at + |buf| <= |file| then file[at + |buf|..] else []
  }

  function WriteAll(d: Disk, buf: seq<byte>): Disk
    requires Usable(d)
  {
    var at := if d.appending then |d.file| else d.cursor;
    d.(file := Overwrite(d.file, at, buf), cursor := at + |buf|)
  }

  function RecordFor(d: Disk, op: WalOp): Record
    requires op.Write?
  {
    Record(op.recordType, op.leafIndex, op.hash, d.monotonic, op.contentId)
  }

  /** A write puts one record at the cursor; a sync rewrites bytes 24 to 31 and leaves the cursor after them. */
  function ApplyOp(d: Disk, op: WalOp): (d': Disk)
    requires Usable(d) && (d.appending || |d.file| >= HEADER_SIZE)
    ensures Usable(d') && d'.appending == d.appending && |d'.file| >= |d.file|
  {
    match op
    case Write(_, _, _, _) => WriteAll(d, Encoded(RecordFor(d, op))).(monotonic := NextStamp(d.monotonic))
    case Sync => WriteAll(d.(cursor := 24), WriteU64(d.monotonic))
  }

  function ApplyAll(d: Disk, ops: seq<WalOp>): (d': Disk)
    requires Usable(d) && (d.appending || |d.file| >= HEADER_SIZE)
    ensures Usable(d') && d'.appending == d.appending && |d'.file| >= |d.file|
  {
    if ops == [] then d else ApplyOp(ApplyAll(d, ops[..|ops| - 1]), ops[|ops| - 1])
  }

  const CREATED: Disk := Disk(Header(), HEADER_SIZE, false, 1)

  /** The counter continues after the last 64 bytes of the file, when they can be read as a record. */
  function RecoveredStamp(file: seq<byte>): U64 {
    if |file| < HEADER_SIZE + RECORD_SIZE then 1
    else
      match Decode(file[|file| - RECORD_SIZE..])
      case Some(r) => NextStamp(r.timestamp)
      case None => 1
  }

  function Reopened(file: seq<byte>): Disk {
    Disk(file, |file|, true, RecoveredStamp(file))
  }

  // ----- what a replay sees -----

  function Chunk(data: seq<byte>, j: nat): (c: seq<byte>)
    requires RECORD_SIZE * (j + 1) <= |data|
    ensures |c| == RECORD_SIZE
  {
    data[RECORD_SIZE * j..RECORD_SIZE * (j + 1)]
  }

  function LeafOf(chunk: seq<byte>): seq<Hash>
    requires |chunk| == RECORD_SIZE
  {
    match Decode(chunk)
    case None => []
    case Some(r) => if r.recordType.Leaf? then [r.hash] else []
  }

  /** The leaf hashes among the first n chunks. */
  function LeavesIn(data: seq<byte>, n: nat): seq<Hash>
    requires RECORD_SIZE * n <= |data|
  {
    if n == 0 then [] else LeavesIn(data, n - 1) + LeafOf(Chunk(data, n - 1))
  }

  /** The leaf hashes a replay of the file appends: header chunks and a trailing partial chunk included in the scan. */
  function Replayed(file: seq<byte>): seq<Hash> {
    LeavesIn(file, |file| / RECORD_SIZE)
  }

  function ReplayedStamp(file: seq<byte>, before: U64): U64 {
    var n := |file| / RECORD_SIZE;
    if n == 0 then before
    else
      match Decode(Chunk(file, n - 1))
      case Some(r) => NextStamp(r.timestamp)
      case None => before
  }

  /** How many whole records there are behind the header, going by the size alone. */
  function RecordsIn(file: seq<byte>): nat {
    if |file| < HEADER_SIZE then 0 else (|file| - HEADER_SIZE) / RECORD_SIZE
  }

  class WalStore {
    var file: seq<byte>
    var cursor: nat
    const appending: bool
    var monotonic: U64

    ghost predicate Valid()
      reads this
    {
      Usable(Contents()) && (appending || |file| >= HEADER_SIZE)
    }

    ghost function Contents(): Disk
      reads this
    {
      Disk(file, cursor, appending, monotonic)
    }

    /** Open an existing file for appending, or create one holding just the header. */
    constructor Open(existing: Option<seq<byte>>)
      ensures Valid()
      ensures Contents() == match existing case Some(bytes) => Reopened(bytes) case None => CREATED
    {
      match existing
      case Some(bytes) =>
        file, cursor, appending, monotonic := bytes, |bytes|, true, RecoveredStamp(bytes);
      case None =>
        file, cursor, appending, monotonic := Header(), HEADER_SIZE, false, 1;
    }

    method WriteBytes(buf: seq<byte>)
      requires Valid()
      modifies `file, `cursor
      ensures Contents() == WriteAll(old(Contents()), buf)
    {
      var at := if appending then |file| else cursor;
      file := Overwrite(file, at, buf);
      cursor := at + |buf|;
    }

    method Append(recordType: RecordType, leafIndex: U64, hash: Hash, contentId: U64) returns (ts: U64)
      requires Valid()
      modifies this
      ensures Valid()
      ensures ts == old(monotonic)
      ensures Contents() == ApplyOp(old(Contents()), Write(recordType, leafIndex, hash, contentId))
    {
      ts := monotonic;
      monotonic := NextStamp(monotonic);
      var buf := Encode(Record(recordType, leafIndex, hash, ts, contentId));
      WriteBytes(buf[..]);
    }

    /** Write the counter at offset 24 of the header. The file position is not put back. */
    method SyncToDisk()
      requires Valid()
      modifies this
      ensures Valid()
      ensures Contents() == ApplyOp(old(Contents()), Sync)
    {
      cursor := 24;
      WriteBytes(WriteU64(monotonic));
    }

    /** Append every readable leaf of the file to the range, in file order. */
    method Replay(mmr: Mmr) returns (count: nat)
      requires Valid() && mmr.Valid()
      modifies mmr, `monotonic
      ensures Valid() && mmr.Valid()
      ensures var found := if |file| < HEADER_SIZE then [] else Replayed(file);
        count == |found| && mmr.leaves == old(mmr.leaves) + found
      ensures monotonic == if |file| < HEADER_SIZE then old(monotonic) else ReplayedStamp(file, old(monotonic))
      ensures mmr.epoch == old(mmr.epoch)
    {
      hide NodesOf, PeakPositions, Decode, LeafOf;
      count := 0;
      if |file| < HEADER_SIZE {
        return;
      }
      for i := 0 to |file| / RECORD_SIZE
        invariant mmr.Valid() && mmr.epoch == old(mmr.epoch)
        invariant count == |LeavesIn(file, i)| && mmr.leaves == old(mmr.leaves) + LeavesIn(file, i)
        invariant monotonic == old(monotonic)
      {
        var fed := ReplayChunk(Chunk(file, i), mmr);
        count := count + fed;
      }
      if |file| / RECORD_SIZE > 0 {
        var last := Decode(Chunk(file, |file| / RECORD_SIZE - 1));
        if last.Some? {
          monotonic := NextStamp(last.value.timestamp);
        }
      }
    }

    static method ReplayChunk(chunk: seq<byte>, mmr: Mmr) returns (fed: nat)
      requires |chunk| == RECORD_SIZE && mmr.Valid()
      modifies mmr
      ensures mmr.Valid() && mmr.epoch == old(mmr.epoch)
      ensures fed == |LeafOf(chunk)| && mmr.leaves == old(mmr.leaves) + LeafOf(chunk)
    {
      hide NodesOf, PeakPositions, ReadU64, TrailingOnes;
      var record := Decode(chunk);
      fed := 0;
      if record.Some? && record.value.recordType.Leaf? {
        var _ := mmr.AppendLeaf(record.value.hash);
        fed := 1;
      }
    }

    method RecordCount() returns (n: nat)
      ensures n == RecordsIn(file)
    {
      n := if |file| < HEADER_SIZE then 0 else (|file| - HEADER_SIZE) / RECORD_SIZE;
    }
  }
}
