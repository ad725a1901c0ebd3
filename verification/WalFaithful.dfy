/** When a replay gives back exactly the leaves that were logged. */
module WalFaithful {
  import opened Wrappers
  import opened WalRecord
  import opened WalStore

  // ----- what should come back -----

  function LoggedLeaves(ops: seq<WalOp>): seq<Hash> {
    if ops == [] then []
    else
      var op := ops[|ops| - 1];
      LoggedLeaves(ops[..|ops| - 1]) + if op.Write? && op.recordType.Leaf? then [op.hash] else []
  }

  /** A session on a newly created log is faithful when replaying its file gives back the logged leaves. */
  predicate Faithful(ops: seq<WalOp>) {
    Replayed(ApplyAll(CREATED, ops).file) == LoggedLeaves(ops)
  }

  // ----- files made of whole records -----

  function LeafHashes(records: seq<Record>): seq<Hash> {
    if records == [] then []
    else
      var r := records[|records| - 1];
      LeafHashes(records[..|records| - 1]) + if r.recordType.Leaf? then [r.hash] else []
  }

  /** The chunk at j holds an undecodable header chunk for j < 4, and record j - 4 after that. */
  ghost predicate Clean(file: seq<byte>, records: seq<Record>) {
    && |file| == RECORD_SIZE * (4 + |records|)
    && (forall j :: 0 <= j < 4 ==> FromByte(file[RECORD_SIZE * j]) == None)
    && (forall j :: 0 <= j < |records| ==> Chunk(file, 4 + j) == Encoded(records[j]))
  }

  lemma CreatedIsClean()
    ensures Clean(CREATED.file, [])
  {
    hide ToLittleEndian, Chunk;
    assert Header()[0] == 0x4E && Header()[64] == Header()[128] == Header()[192] == 0;
  }

  lemma CleanGrows(file: seq<byte>, records: seq<Record>, r: Record)
    requires Clean(file, records)
    ensures Clean(Overwrite(file, |file|, Encoded(r)), records + [r])
  {
    var grown := Overwrite(file, |file|, Encoded(r));
    forall j | 0 <= j < |records| + 1
      ensures Chunk(grown, 4 + j) == Encoded((records + [r])[j])
    {
      if j < |records| {
        assert Chunk(grown, 4 + j) == Chunk(file, 4 + j);
      }
    }
  }

  lemma CleanSynced(file: seq<byte>, records: seq<Record>, stamp: seq<byte>)
    requires Clean(file, records) && |stamp| == 8
    ensures Clean(Overwrite(file, 24, stamp), records)
  {
    var synced := Overwrite(file, 24, stamp);
    forall j | 0 <= j < |records|
      ensures Chunk(synced, 4 + j) == Encoded(records[j])
    {
      assert Chunk(synced, 4 + j) == Chunk(file, 4 + j);
    }
  }

  lemma {:induction false} NoLeaves(file: seq<byte>, n: nat)
    requires RECORD_SIZE * n <= |file| && forall j :: 0 <= j < n ==> LeafOf(Chunk(file, j)) == []
    ensures LeavesIn(file, n) == []
  {
    if n > 0 {
      NoLeaves(file, n - 1);
    }
  }

  lemma CleanSize(file: seq<byte>, records: seq<Record>)
    requires Clean(file, records)
    ensures |file| == RECORD_SIZE * (4 + |records|)
  {}

  lemma HeaderChunk(file: seq<byte>, records: seq<Record>, j: nat)
    requires Clean(file, records) && j < 4 && RECORD_SIZE * (j + 1) <= |file|
    ensures LeafOf(Chunk(file, j)) == []
  {
    assert Chunk(file, j)[0] == file[RECORD_SIZE * j];
  }

  lemma RecordChunk(file: seq<byte>, records: seq<Record>, j: nat)
    requires Clean(file, records) && j < |records| && RECORD_SIZE * (4 + j + 1) <= |file|
    ensures LeafOf(Chunk(file, 4 + j)) == if records[j].recordType.Leaf? then [records[j].hash] else []
  {
    hide Encoded, Decode;
    DecodeEncoded(records[j]);
  }

  lemma {:induction false} CleanLeaves(file: seq<byte>, records: seq<Record>, n: nat)
    requires Clean(file, records) && n <= |records|
    ensures RECORD_SIZE * (4 + n) <= |file| && LeavesIn(file, 4 + n) == LeafHashes(records[..n])
  {
    hide Clean, Chunk, LeafOf;
    CleanSize(file, records);
    if n == 0 {
      forall j | 0 <= j < 4
        ensures LeafOf(Chunk(file, j)) == []
      {
        HeaderChunk(file, records, j);
      }
      NoLeaves(file, 4);
    } else {
      CleanLeaves(file, records, n - 1);
      RecordChunk(file, records, n - 1);
      assert records[..n][..n - 1] == records[..n - 1];
    }
  }

  /** A clean file replays to the leaves of its records: the header chunks and the other records are skipped. */
  lemma CleanReplay(file: seq<byte>, records: seq<Record>)
    requires Clean(file, records)
    ensures Replayed(file) == LeafHashes(records)
  {
    CleanLeaves(file, records, |records|);
    assert |file| / RECORD_SIZE == 4 + |records|;
    assert records[..|records|] == records;
  }

  lemma CleanCount(file: seq<byte>, records: seq<Record>)
    requires Clean(file, records)
    ensures RecordsIn(file) == |records|
  {}

  // ----- faithful sessions -----

  /** Nothing is appended once the log has been synced. */
  predicate NoWriteAfterSync(ops: seq<WalOp>) {
    forall i, j :: 0 <= i < j < |ops| && ops[i].Sync? ==> ops[j].Sync?
  }

  /** The n-th stamp handed out from a counter. */
  function Stamp(from: U64, n: nat): U64 {
    if n == 0 then from else NextStamp(Stamp(from, n - 1))
  }

  lemma {:induction false} StampWithoutOverflow(from: U64, n: nat)
    requires from + n < 0x1_0000_0000_0000_0000
    ensures Stamp(from, n) == from + n
  {
    if n > 0 {
      StampWithoutOverflow(from, n - 1);
    }
  }

  /** The records a run of operations writes, stamped from the given counter on. */
  function Written(ops: seq<WalOp>, from: U64): seq<Record> {
    if ops == [] then []
    else
      var op := ops[|ops| - 1];
      var before := Written(ops[..|ops| - 1], from);
      if op.Write? then before + [Record(op.recordType, op.leafIndex, op.hash, Stamp(from, |before|), op.contentId)] else before
  }

  lemma {:induction false} WrittenLeaves(ops: seq<WalOp>, from: U64)
    ensures LeafHashes(Written(ops, from)) == LoggedLeaves(ops)
    decreases |ops|
  {
    if ops != [] {
      WrittenLeaves(ops[..|ops| - 1], from);
      var w := Written(ops, from);
      if ops[|ops| - 1].Write? {
        assert w[..|w| - 1] == Written(ops[..|ops| - 1], from);
      }
    }
  }

  /** The next write goes to the end of the file. */
  predicate AtEnd(d: Disk) {
    d.appending || d.cursor == |d.file| >= HEADER_SIZE
  }

  lemma WriteAtEnd(d: Disk, op: WalOp)
    requires AtEnd(d) && op.Write?
    ensures ApplyOp(d, op) ==
      d.(file := Overwrite(d.file, |d.file|, Encoded(RecordFor(d, op))), cursor := |d.file| + RECORD_SIZE, monotonic := NextStamp(d.monotonic))
    ensures AtEnd(ApplyOp(d, op))
  {}

  lemma {:induction false} WritesStayClean(d: Disk, ops: seq<WalOp>, records: seq<Record>)
    requires Clean(d.file, records) && AtEnd(d) && forall i :: 0 <= i < |ops| ==> ops[i].Write?
    ensures var d', w := ApplyAll(d, ops), Written(ops, d.monotonic);
      Clean(d'.file, records + w) && AtEnd(d') && d'.monotonic == Stamp(d.monotonic, |w|)
    decreases |ops|
  {
    if ops == [] {
      assert records + [] == records;
    } else {
      hide Clean, Encoded, AtEnd, Overwrite, Stamp;
      var before, op := ops[..|ops| - 1], ops[|ops| - 1];
      WritesStayClean(d, before, records);
      var d', w := ApplyAll(d, before), Written(before, d.monotonic);
      WriteAtEnd(d', op);
      CleanGrows(d'.file, records + w, RecordFor(d', op));
      assert Stamp(d.monotonic, |w| + 1) == NextStamp(Stamp(d.monotonic, |w|)) by { StampStep(d.monotonic, |w|); }
      assert records + w + [RecordFor(d', op)] == records + (w + [RecordFor(d', op)]);
    }
  }

  lemma StampStep(from: U64, n: nat)
    ensures Stamp(from, n + 1) == NextStamp(Stamp(from, n))
  {}

  /** Final syncs of a created log change neither the records nor the counter. */
  lemma {:induction false} SessionStaysClean(ops: seq<WalOp>)
    requires NoWriteAfterSync(ops)
    ensures var d, w := ApplyAll(CREATED, ops), Written(ops, 1);
      Clean(d.file, w) && d.monotonic == Stamp(1, |w|)
    decreases |ops|
  {
    if ops == [] || ops[|ops| - 1].Write? {
      forall i | 0 <= i < |ops|
        ensures ops[i].Write?
      {
        if ops[i].Sync? {
          assert i < |ops| - 1;
        }
      }
      CreatedIsClean();
      WritesStayClean(CREATED, ops, []);
      assert [] + Written(ops, 1) == Written(ops, 1);
    } else {
      SessionStaysClean(ops[..|ops| - 1]);
      var d := ApplyAll(CREATED, ops[..|ops| - 1]);
      CleanSynced(d.file, Written(ops[..|ops| - 1], 1), WriteU64(d.monotonic));
    }
  }

  lemma CreatedSessionIsFaithful(ops: seq<WalOp>)
    requires NoWriteAfterSync(ops)
    ensures Faithful(ops)
  {
    SessionStaysClean(ops);
    CleanReplay(ApplyAll(CREATED, ops).file, Written(ops, 1));
    WrittenLeaves(ops, 1);
  }

  // ----- timestamps -----

  lemma CleanStamp(file: seq<byte>, records: seq<Record>)
    requires Clean(file, records)
    ensures RecoveredStamp(file) == if records == [] then 1 else NextStamp(records[|records| - 1].timestamp)
  {
    var n := |records|;
    if n > 0 {
      assert file[|file| - RECORD_SIZE..] == Chunk(file, 4 + (n - 1));
      DecodeEncoded(records[n - 1]);
    }
  }

  lemma CleanRecord(file: seq<byte>, records: seq<Record>, j: nat)
    requires Clean(file, records) && RECORD_SIZE * (j + 1) <= |file| && Decode(Chunk(file, j)).Some?
    ensures 4 <= j < 4 + |records| && Decode(Chunk(file, j)).value == records[j - 4]
  {
    assert Chunk(file, j)[0] == file[RECORD_SIZE * j];
    if j >= 4 {
      assert Chunk(file, 4 + (j - 4)) == Encoded(records[j - 4]);
      DecodeEncoded(records[j - 4]);
    }
  }

  // ----- and nothing else is -----

  datatype Kind = WriteKind(recordType: RecordType) | SyncKind

  function KindOf(op: WalOp): Kind {
    match op
    case Write(t, _, _, _) => WriteKind(t)
    case Sync => SyncKind
  }

  /** Sessions of these kinds of operations are faithful whatever hashes, indices and content they carry. */
  ghost predicate AlwaysFaithful(kinds: seq<Kind>) {
    forall ops: seq<WalOp> | |ops| == |kinds| && (forall i :: 0 <= i < |ops| ==> KindOf(ops[i]) == kinds[i]) :: Faithful(ops)
  }

  predicate NoWriteAfterSyncKind(kinds: seq<Kind>) {
    forall i, j :: 0 <= i < j < |kinds| && kinds[i].SyncKind? ==> kinds[j].SyncKind?
  }

  /** The chunks that replay as leaves. */
  function LeafChunks(data: seq<byte>, n: nat): set<nat>
    requires RECORD_SIZE * n <= |data|
  {
    set j | 0 <= j < n && data[RECORD_SIZE * j] == 1
  }

  lemma {:induction false} LeafChunkCount(data: seq<byte>, n: nat)
    requires RECORD_SIZE * n <= |data|
    ensures |LeavesIn(data, n)| == |LeafChunks(data, n)|
  {
    hide LeafChunks, LeafOf, Chunk;
    if n == 0 {
      NoChunks(data);
    } else {
      LeafChunkCount(data, n - 1);
      LeafChunkStep(data, n);
      LeafOfSize(Chunk(data, n - 1));
    }
  }

  lemma NoChunks(data: seq<byte>)
    ensures LeafChunks(data, 0) == {}
  {}

  lemma LeafOfSize(chunk: seq<byte>)
    requires |chunk| == RECORD_SIZE
    ensures |LeafOf(chunk)| == if chunk[0] == 1 then 1 else 0
  {}

  lemma LeafChunkStep(data: seq<byte>, n: nat)
    requires n > 0 && RECORD_SIZE * n <= |data|
    ensures LeafChunks(data, n) == LeafChunks(data, n - 1) + if Chunk(data, n - 1)[0] == 1 then {n - 1} else {}
    ensures n - 1 !in LeafChunks(data, n - 1)
  {}

  /** After a sync of a created log: byte b (0 or 1) at every chunk start that was overwritten, the old file elsewhere. */
  ghost predicate Smeared(base: seq<byte>, d: Disk, b: byte) {
    && !d.appending && d.cursor % RECORD_SIZE == 32 && d.cursor <= |d.file| && HEADER_SIZE <= |base| <= |d.file|
    && (forall j: nat :: RECORD_SIZE * j < |d.file| ==>
          (j > 0 && d.file[RECORD_SIZE * j] == b) || (RECORD_SIZE * j < |base| && d.file[RECORD_SIZE * j] == base[RECORD_SIZE * j]))
    && (d.cursor > 32 ==> d.file[RECORD_SIZE] == b)
  }

  function Filled(b: byte): Hash {
    seq(32, _ => b)
  }

  lemma OneChunkStart(cursor: nat, j: nat)
    requires cursor % RECORD_SIZE == 32 && cursor <= RECORD_SIZE * j < cursor + RECORD_SIZE
    ensures RECORD_SIZE * j == cursor + 32
  {}

  /** A record whose hash is all b puts b at the one chunk start it covers, its own byte 32. */
  lemma WriteSmears(base: seq<byte>, d: Disk, b: byte, op: WalOp)
    requires Smeared(base, d, b) && op.Write? && op.hash == Filled(b)
    ensures Smeared(base, ApplyOp(d, op), b) && ApplyOp(d, op).file[RECORD_SIZE] == b
  {
    hide Encoded, ToLittleEndian, FromByte;
    var buf, d' := Encoded(RecordFor(d, op)), ApplyOp(d, op);
    EncodedFields(RecordFor(d, op));
    assert buf[32] == buf[16..48][16] == b;
    forall j: nat | RECORD_SIZE * j < |d'.file|
      ensures (j > 0 && d'.file[RECORD_SIZE * j] == b) || (RECORD_SIZE * j < |base| && d'.file[RECORD_SIZE * j] == base[RECORD_SIZE * j])
    {
      if d.cursor <= RECORD_SIZE * j < d.cursor + RECORD_SIZE {
        OneChunkStart(d.cursor, j);
      }
    }
  }

  lemma SyncSmears(base: seq<byte>, d: Disk, b: byte)
    requires Smeared(base, d, b)
    ensures Smeared(base, ApplyOp(d, Sync), b)
    ensures ApplyOp(d, Sync).file[RECORD_SIZE] == d.file[RECORD_SIZE]
  {}

  predicate AllHashes(ops: seq<WalOp>, b: byte) {
    forall i :: 0 <= i < |ops| && ops[i].Write? ==> ops[i].hash == Filled(b)
  }

  predicate SomeWrite(ops: seq<WalOp>) {
    exists i :: 0 <= i < |ops| && ops[i].Write?
  }

  lemma LastOp(ops: seq<WalOp>, b: byte)
    requires ops != []
    ensures var before, op := ops[..|ops| - 1], ops[|ops| - 1];
      && (AllHashes(ops, b) ==> AllHashes(before, b) && (op.Write? ==> op.hash == Filled(b)))
      && (SomeWrite(ops) ==> SomeWrite(before) || op.Write?)
  {
    if i :| 0 <= i < |ops| - 1 && ops[i].Write? {
      assert ops[..|ops| - 1][i].Write?;
    }
  }

  lemma {:induction false} RunSmears(base: seq<byte>, d: Disk, b: byte, ops: seq<WalOp>)
    requires Smeared(base, d, b) && AllHashes(ops, b)
    ensures Smeared(base, ApplyAll(d, ops), b)
    ensures SomeWrite(ops) ==> ApplyAll(d, ops).file[RECORD_SIZE] == b
    decreases |ops|
  {
    SmearedUsable(base, d, b);
    if ops != [] {
      hide Smeared, ApplyOp, AllHashes, SomeWrite;
      var before, op := ops[..|ops| - 1], ops[|ops| - 1];
      LastOp(ops, b);
      RunSmears(base, d, b, before);
      SmearedUsable(base, ApplyAll(d, before), b);
      if op.Write? {
        WriteSmears(base, ApplyAll(d, before), b, op);
      } else {
        SyncSmears(base, ApplyAll(d, before), b);
      }
    }
  }

  lemma SmearedUsable(base: seq<byte>, d: Disk, b: byte)
    requires Smeared(base, d, b)
    ensures Usable(d) && |d.file| >= HEADER_SIZE
  {}

  lemma ReplayedCount(file: seq<byte>)
    ensures |Replayed(file)| == |LeafChunks(file, |file| / RECORD_SIZE)|
  {
    LeafChunkCount(file, |file| / RECORD_SIZE);
  }

  /** Smearing zeros can only lose leaves. */
  lemma ZerosLoseLeaves(base: seq<byte>, d: Disk)
    requires Smeared(base, d, 0) && |base| % RECORD_SIZE == 0
    ensures |Replayed(d.file)| <= |Replayed(base)|
  {
    ReplayedCount(d.file);
    ReplayedCount(base);
    var now, before := LeafChunks(d.file, |d.file| / RECORD_SIZE), LeafChunks(base, |base| / RECORD_SIZE);
    assert now <= before;
    SubsetSize(now, before);
  }

  /** Smearing ones invents at least one. */
  lemma OnesInventLeaves(base: seq<byte>, d: Disk)
    requires Smeared(base, d, 1) && d.file[RECORD_SIZE] == 1 && base[RECORD_SIZE] != 1
    ensures |Replayed(d.file)| > |Replayed(base)|
  {
    ReplayedCount(d.file);
    ReplayedCount(base);
    var now, before := LeafChunks(d.file, |d.file| / RECORD_SIZE), LeafChunks(base, |base| / RECORD_SIZE);
    assert before + {1} <= now && 1 !in before;
    SubsetSize(before + {1}, now);
  }

  lemma {:induction false} SubsetSize<T>(a: set<T>, b: set<T>)
    requires a <= b
    ensures |a| <= |b|
  {
    assert b == a + (b - a);
  }

  /** Operations of the given kinds, all with the same hash. */
  function Fill(kinds: seq<Kind>, b: byte): (ops: seq<WalOp>)
    ensures |ops| == |kinds|
    ensures forall i :: 0 <= i < |ops| ==> KindOf(ops[i]) == kinds[i] && (ops[i].Write? ==> ops[i].hash == Filled(b))
  {
    seq(|kinds|, i requires 0 <= i < |kinds| =>
      match kinds[i]
      case WriteKind(t) => Write(t, 0, Filled(b), 0)
      case SyncKind => Sync)
  }

  /** The first append that follows a sync comes right after one. */
  lemma {:induction false} FirstWriteAfterSync(kinds: seq<Kind>) returns (c: nat)
    requires !NoWriteAfterSyncKind(kinds)
    ensures 0 < c < |kinds| && kinds[c].WriteKind? && kinds[c - 1].SyncKind? && NoWriteAfterSyncKind(kinds[..c])
    decreases |kinds|
  {
    var before := kinds[..|kinds| - 1];
    if NoWriteAfterSyncKind(before) {
      c := |kinds| - 1;
      var i, j :| 0 <= i < j < |kinds| && kinds[i].SyncKind? && !kinds[j].SyncKind?;
      if i < c - 1 {
        assert before[i].SyncKind? && before[c - 1].SyncKind?;
      }
    } else {
      c := FirstWriteAfterSync(before);
      assert before[..c] == kinds[..c];
    }
  }

  lemma {:induction false} ApplyAllSplits(d: Disk, a: seq<WalOp>, b: seq<WalOp>)
    requires Usable(d) && (d.appending || |d.file| >= HEADER_SIZE)
    ensures ApplyAll(d, a + b) == ApplyAll(ApplyAll(d, a), b)
    ensures LoggedLeaves(a + b) == LoggedLeaves(a) + LoggedLeaves(b)
    decreases |b|
  {
    if b == [] {
      assert a + b == a;
    } else {
      assert (a + b)[..|a + b| - 1] == a + b[..|b| - 1];
      ApplyAllSplits(d, a, b[..|b| - 1]);
    }
  }

  lemma {:induction false} NoLeavesLogged(ops: seq<WalOp>)
    ensures LoggedLeaves(ops) == [] <==> forall i :: 0 <= i < |ops| && ops[i].Write? ==> !ops[i].recordType.Leaf?
    decreases |ops|
  {
    if ops != [] {
      NoLeavesLogged(ops[..|ops| - 1]);
    }
  }

  lemma CleanShape(file: seq<byte>, records: seq<Record>)
    requires Clean(file, records)
    ensures |file| % RECORD_SIZE == 0 && |file| >= HEADER_SIZE && file[RECORD_SIZE] != 1
  {
    assert FromByte(file[RECORD_SIZE * 1]) == None;
  }

  lemma NothingSmeared(d: Disk, b: byte)
    requires !d.appending && d.cursor == 32 && |d.file| >= HEADER_SIZE
    ensures Smeared(d.file, d, b)
  {}

  /** Right after a sync that ends a clean session, the file is smeared with nothing yet. */
  lemma SyncedStart(ops: seq<WalOp>, b: byte)
    requires ops != [] && NoWriteAfterSync(ops) && ops[|ops| - 1].Sync?
    ensures var d := ApplyAll(CREATED, ops);
      && Smeared(d.file, d, b)
      && |d.file| % RECORD_SIZE == 0 && d.file[RECORD_SIZE] != 1
      && Replayed(d.file) == LoggedLeaves(ops)
  {
    hide Clean, Smeared, Replayed, Written, LoggedLeaves, Stamp, Overwrite, Header;
    var d := ApplyAll(CREATED, ops);
    SessionStaysClean(ops);
    CleanReplay(d.file, Written(ops, 1));
    CleanShape(d.file, Written(ops, 1));
    WrittenLeaves(ops, 1);
    NothingSmeared(d, b);
  }

  lemma WriteAfterSyncCanFail(kinds: seq<Kind>)
    requires !NoWriteAfterSyncKind(kinds)
    ensures !AlwaysFaithful(kinds)
  {
    hide Smeared, ApplyAll, Fill, Replayed, LoggedLeaves;
    var c := FirstWriteAfterSync(kinds);
    var leafLater := exists i :: c <= i < |kinds| && kinds[i] == WriteKind(Leaf);
    var b: byte := if leafLater then 0 else 1;
    var ops := Fill(kinds, b);
    var a, rest := ops[..c], ops[c..];
    assert a + rest == ops;
    assert NoWriteAfterSync(a) by {
      forall i, j | 0 <= i < j < |a| && a[i].Sync?
        ensures a[j].Sync?
      {
        assert kinds[..c][i].SyncKind? && kinds[..c][j].SyncKind?;
      }
    }
    SyncedStart(a, b);
    var d := ApplyAll(CREATED, a);
    RunSmears(d.file, d, b, rest);
    ApplyAllSplits(CREATED, a, rest);
    NoLeavesLogged(rest);
    assert rest[0].Write?;
    if leafLater {
      var i :| c <= i < |kinds| && kinds[i] == WriteKind(Leaf);
      assert rest[i - c].Write? && rest[i - c].recordType.Leaf?;
      ZerosLoseLeaves(d.file, ApplyAll(d, rest));
    } else {
      OnesInventLeaves(d.file, ApplyAll(d, rest));
    }
    assert !Faithful(ops);
  }

  /**
   A session on a newly created log replays to exactly the leaves it logged, for all contents, if and only if
   it appends nothing after its first sync: the sync leaves the file position inside the header.
   */
  lemma FaithfulIffNoWriteAfterSync(kinds: seq<Kind>)
    ensures AlwaysFaithful(kinds) <==> NoWriteAfterSyncKind(kinds)
  {
    if NoWriteAfterSyncKind(kinds) {
      forall ops: seq<WalOp> | |ops| == |kinds| && (forall i :: 0 <= i < |ops| ==> KindOf(ops[i]) == kinds[i])
        ensures Faithful(ops)
      {
        assert NoWriteAfterSync(ops) by {
          forall i, j | 0 <= i < j < |ops| && ops[i].Sync?
            ensures ops[j].Sync?
          {
            assert KindOf(ops[i]) == kinds[i] && KindOf(ops[j]) == kinds[j];
          }
        }
        CreatedSessionIsFaithful(ops);
      }
    } else {
      WriteAfterSyncCanFail(kinds);
    }
  }
}
