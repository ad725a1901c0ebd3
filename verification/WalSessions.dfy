/** Logs that are closed and reopened: what replay and the recovered counter make of any number of sessions. */
module WalSessions {
  import opened Wrappers
  import opened WalRecord
  import opened WalStore
  import opened WalFaithful

  // ----- chains of sessions -----

  /** The file after a first session on a created log and later sessions on the reopened file. */
  function SessionsFile(first: seq<WalOp>, later: seq<seq<WalOp>>): seq<byte> {
    if later == [] then ApplyAll(CREATED, first).file
    else ApplyAll(Reopened(SessionsFile(first, later[..|later| - 1])), later[|later| - 1]).file
  }

  function AllOps(first: seq<WalOp>, later: seq<seq<WalOp>>): seq<WalOp> {
    if later == [] then first else AllOps(first, later[..|later| - 1]) + later[|later| - 1]
  }

  predicate OnlyWrites(ops: seq<WalOp>) {
    forall i :: 0 <= i < |ops| ==> ops[i].Write?
  }

  /** The first session appends nothing after a sync, the later ones append only. */
  predicate Appending(first: seq<WalOp>, later: seq<seq<WalOp>>) {
    NoWriteAfterSync(first) && forall i :: 0 <= i < |later| ==> OnlyWrites(later[i])
  }

  lemma {:induction false} StampsAdd(from: U64, m: nat, n: nat)
    ensures Stamp(Stamp(from, m), n) == Stamp(from, m + n)
  {
    if n > 0 {
      StampsAdd(from, m, n - 1);
      StampStep(from, m + n - 1);
    }
  }

  lemma {:induction false} WrittenConcat(a: seq<WalOp>, b: seq<WalOp>, from: U64)
    ensures Written(a + b, from) == Written(a, from) + Written(b, Stamp(from, |Written(a, from)|))
    decreases |b|
  {
    if b == [] {
      assert a + b == a;
    } else {
      var n := |b| - 1;
      assert (a + b)[..|a + b| - 1] == a + b[..n];
      WrittenConcat(a, b[..n], from);
      StampsAdd(from, |Written(a, from)|, |Written(b[..n], Stamp(from, |Written(a, from)|))|);
    }
  }

  lemma {:induction false} WrittenStamps(ops: seq<WalOp>, from: U64, i: nat)
    requires i < |Written(ops, from)|
    ensures Written(ops, from)[i].timestamp == Stamp(from, i)
    decreases |ops|
  {
    var before := Written(ops[..|ops| - 1], from);
    if i < |before| {
      WrittenStamps(ops[..|ops| - 1], from, i);
    }
  }

  /** The counter recovered from a clean file continues where its records stopped. */
  lemma RecoveredContinues(file: seq<byte>, ops: seq<WalOp>)
    requires Clean(file, Written(ops, 1))
    ensures RecoveredStamp(file) == Stamp(1, |Written(ops, 1)|)
  {
    hide Clean, RecoveredStamp;
    var records := Written(ops, 1);
    CleanStamp(file, records);
    if records != [] {
      WrittenStamps(ops, 1, |records| - 1);
      StampStep(1, |records| - 1);
    }
  }

  lemma {:induction false} SessionsStayClean(first: seq<WalOp>, later: seq<seq<WalOp>>)
    requires Appending(first, later)
    ensures Clean(SessionsFile(first, later), Written(AllOps(first, later), 1))
    decreases |later|
  {
    hide Clean, Written, ApplyAll, RecoveredStamp, Stamp;
    if later == [] {
      SessionStaysClean(first);
    } else {
      var before, last := later[..|later| - 1], later[|later| - 1];
      SessionsStayClean(first, before);
      var file, records := SessionsFile(first, before), Written(AllOps(first, before), 1);
      RecoveredContinues(file, AllOps(first, before));
      WritesStayClean(Reopened(file), last, records);
      WrittenConcat(AllOps(first, before), last, 1);
    }
  }

  /**
   After any number of sessions that append, the first of which may end in syncs, a replay gives back exactly the
   leaves logged in all of them, and the record count is the number of records logged.
   */
  lemma AppendingSessionsAreFaithful(first: seq<WalOp>, later: seq<seq<WalOp>>)
    requires Appending(first, later)
    ensures Replayed(SessionsFile(first, later)) == LoggedLeaves(AllOps(first, later))
    ensures RecordsIn(SessionsFile(first, later)) == |Written(AllOps(first, later), 1)|
  {
    hide Clean, Written, Replayed, SessionsFile, AllOps;
    var file, records := SessionsFile(first, later), Written(AllOps(first, later), 1);
    SessionsStayClean(first, later);
    CleanReplay(file, records);
    CleanCount(file, records);
    WrittenLeaves(AllOps(first, later), 1);
  }

  /**
   With one writer and no counter overflow, the counter recovered after any number of such sessions lies above
   every timestamp of the file.
   */
  lemma RecoveredStampIsFresh(first: seq<WalOp>, later: seq<seq<WalOp>>, j: nat)
    requires Appending(first, later) && |Written(AllOps(first, later), 1)| + 1 < 0x1_0000_0000_0000_0000
    ensures var file := SessionsFile(first, later);
      && RecoveredStamp(file) == |Written(AllOps(first, later), 1)| + 1
      && (RECORD_SIZE * (j + 1) <= |file| && Decode(Chunk(file, j)).Some? ==>
            Decode(Chunk(file, j)).value.timestamp < RecoveredStamp(file))
  {
    hide Clean, Decode, Written, RecoveredStamp, Stamp, Chunk, SessionsFile, AllOps;
    var file, ops := SessionsFile(first, later), AllOps(first, later);
    var records := Written(ops, 1);
    SessionsStayClean(first, later);
    RecoveredContinues(file, ops);
    StampWithoutOverflow(1, |records|);
    if RECORD_SIZE * (j + 1) <= |file| && Decode(Chunk(file, j)).Some? {
      CleanRecord(file, records, j);
      WrittenStamps(ops, 1, j - 4);
      StampWithoutOverflow(1, j - 4);
    }
  }

  // ----- sessions that sync a reopened log -----

  function SyncCount(kinds: seq<Kind>): (n: nat)
    ensures n <= |kinds|
  {
    if kinds == [] then 0 else SyncCount(kinds[..|kinds| - 1]) + if kinds[|kinds| - 1].SyncKind? then 1 else 0
  }

  function KindsOf(ops: seq<WalOp>): (kinds: seq<Kind>)
    ensures |kinds| == |ops|
    ensures forall i :: 0 <= i < |ops| ==> kinds[i] == KindOf(ops[i])
  {
    seq(|ops|, i requires 0 <= i < |ops| => KindOf(ops[i]))
  }

  /** Sessions of these kinds are faithful on every log that appending sessions leave behind, whatever they log. */
  ghost predicate ReopenedFaithful(kinds: seq<Kind>) {
    forall first: seq<WalOp>, later: seq<seq<WalOp>>, ops: seq<WalOp> | Appending(first, later) && KindsOf(ops) == kinds ::
      Replayed(ApplyAll(Reopened(SessionsFile(first, later)), ops).file) == LoggedLeaves(AllOps(first, later)) + LoggedLeaves(ops)
  }

  lemma SameKinds(ops: seq<WalOp>)
    ensures NoWriteAfterSyncKind(KindsOf(ops)) <==> NoWriteAfterSync(ops)
  {
    var kinds := KindsOf(ops);
    assert forall i :: 0 <= i < |ops| ==> (kinds[i].SyncKind? <==> ops[i].Sync?);
  }

  lemma KindsSnoc(ops: seq<WalOp>)
    requires ops != []
    ensures KindsOf(ops)[..|ops| - 1] == KindsOf(ops[..|ops| - 1])
    ensures SyncCount(KindsOf(ops)) == SyncCount(KindsOf(ops[..|ops| - 1])) + if ops[|ops| - 1].Sync? then 1 else 0
    ensures NoWriteAfterSync(ops) ==> NoWriteAfterSync(ops[..|ops| - 1])
  {}

  lemma {:induction false} NoSyncs(ops: seq<WalOp>)
    ensures SyncCount(KindsOf(ops)) == 0 <==> OnlyWrites(ops)
    decreases |ops|
  {
    if ops != [] {
      NoSyncs(ops[..|ops| - 1]);
      KindsSnoc(ops);
    }
  }

  /** The file holds the records, and behind them one copy of the stamp per sync. */
  ghost predicate Stamped(file: seq<byte>, records: seq<Record>, syncs: nat, stamp: U64) {
    var base := RECORD_SIZE * (4 + |records|);
    && |file| == base + 8 * syncs
    && Clean(file[..base], records)
    && forall i: nat :: i < syncs ==> file[base + 8 * i] == WriteU64(stamp)[0]
  }

  lemma StampedByWrites(file: seq<byte>, records: seq<Record>, stamp: U64)
    requires Clean(file, records)
    ensures Stamped(file, records, 0, stamp)
  {
    assert file[..RECORD_SIZE * (4 + |records|)] == file;
  }

  lemma StampedBySync(d: Disk, records: seq<Record>, syncs: nat)
    requires d.appending && Stamped(d.file, records, syncs, d.monotonic)
    ensures Stamped(ApplyOp(d, Sync).file, records, syncs + 1, d.monotonic) && ApplyOp(d, Sync).monotonic == d.monotonic
  {
    hide Clean;
    var base := RECORD_SIZE * (4 + |records|);
    assert ApplyOp(d, Sync).file[..base] == d.file[..base];
  }

  /** Syncs that end a session on a reopened log each leave a stamp at the end of the file. */
  lemma {:induction false} SyncsStamp(d: Disk, ops: seq<WalOp>, records: seq<Record>)
    requires d.appending && Clean(d.file, records) && NoWriteAfterSync(ops)
    ensures var d', w := ApplyAll(d, ops), Written(ops, d.monotonic);
      && Stamped(d'.file, records + w, SyncCount(KindsOf(ops)), d'.monotonic)
      && d'.monotonic == Stamp(d.monotonic, |w|)
    decreases |ops|
  {
    hide Stamped, Clean, Stamp;
    if ops == [] || ops[|ops| - 1].Write? {
      WritesOnly(ops);
      WritesStayClean(d, ops, records);
      NoSyncs(ops);
      StampedByWrites(ApplyAll(d, ops).file, records + Written(ops, d.monotonic), ApplyAll(d, ops).monotonic);
    } else {
      var before := ops[..|ops| - 1];
      KindsSnoc(ops);
      SyncsStamp(d, before, records);
      StampedBySync(ApplyAll(d, before), records + Written(before, d.monotonic), SyncCount(KindsOf(before)));
    }
  }

  lemma WritesOnly(ops: seq<WalOp>)
    requires NoWriteAfterSync(ops) && (ops == [] || ops[|ops| - 1].Write?)
    ensures OnlyWrites(ops)
  {
    assert ops != [] ==> !ops[|ops| - 1].Sync?;
  }

  lemma {:induction false} LeavesOfPrefix(a: seq<byte>, b: seq<byte>, n: nat)
    requires RECORD_SIZE * n <= |a| && RECORD_SIZE * n <= |b| && a[..RECORD_SIZE * n] == b[..RECORD_SIZE * n]
    ensures LeavesIn(a, n) == LeavesIn(b, n)
  {
    hide LeafOf;
    if n > 0 {
      var m := RECORD_SIZE * (n - 1);
      assert a[..m] == a[..RECORD_SIZE * n][..m] && b[..m] == b[..RECORD_SIZE * n][..m];
      LeavesOfPrefix(a, b, n - 1);
      assert Chunk(a, n - 1) == a[..RECORD_SIZE * n][m..] && Chunk(b, n - 1) == b[..RECORD_SIZE * n][m..];
    }
  }

  /** Up to seven stamps make no chunk of their own. */
  lemma FewStampsAreSkipped(file: seq<byte>, records: seq<Record>, syncs: nat, stamp: U64)
    requires Stamped(file, records, syncs, stamp) && syncs < 8
    ensures Replayed(file) == LeafHashes(records)
  {
    var n := 4 + |records|;
    var clean := file[..RECORD_SIZE * n];
    assert |file| / RECORD_SIZE == n == |clean| / RECORD_SIZE;
    assert clean[..RECORD_SIZE * n] == file[..RECORD_SIZE * n];
    LeavesOfPrefix(file, clean, n);
    CleanReplay(clean, records);
  }

  lemma {:induction false} LeafHashesConcat(a: seq<Record>, b: seq<Record>)
    ensures LeafHashes(a + b) == LeafHashes(a) + LeafHashes(b)
    decreases |b|
  {
    if b == [] {
      assert a + b == a;
    } else {
      assert (a + b)[..|a + b| - 1] == a + b[..|b| - 1];
      LeafHashesConcat(a, b[..|b| - 1]);
    }
  }

  lemma FewFinalSyncsAreFaithful(first: seq<WalOp>, later: seq<seq<WalOp>>, ops: seq<WalOp>)
    requires Appending(first, later) && NoWriteAfterSync(ops) && SyncCount(KindsOf(ops)) < 8
    ensures Replayed(ApplyAll(Reopened(SessionsFile(first, later)), ops).file) == LoggedLeaves(AllOps(first, later)) + LoggedLeaves(ops)
  {
    hide Clean, Written, Replayed, SessionsFile, AllOps, Stamped, ApplyAll, RecoveredStamp;
    var d := Reopened(SessionsFile(first, later));
    var records, w := Written(AllOps(first, later), 1), Written(ops, d.monotonic);
    SessionsStayClean(first, later);
    SyncsStamp(d, ops, records);
    FewStampsAreSkipped(ApplyAll(d, ops).file, records + w, SyncCount(KindsOf(ops)), ApplyAll(d, ops).monotonic);
    LeafHashesConcat(records, w);
    WrittenLeaves(AllOps(first, later), 1);
    WrittenLeaves(ops, d.monotonic);
  }

  // ----- the counter after a replay -----

  lemma SameChunk(file: seq<byte>, n: nat, j: nat)
    requires j < n && RECORD_SIZE * n <= |file|
    ensures Chunk(file, j) == Chunk(file[..RECORD_SIZE * n], j)
  {}

  /** A replay sets the counter after the last record, whatever stamps follow it; without records it keeps it. */
  lemma ReplayedStampOfStamped(file: seq<byte>, records: seq<Record>, syncs: nat, stamp: U64, before: U64)
    requires Stamped(file, records, syncs, stamp) && syncs < 8
    ensures ReplayedStamp(file, before) == if records == [] then before else NextStamp(records[|records| - 1].timestamp)
  {
    hide Decode, Encoded;
    var n := 4 + |records|;
    assert |file| / RECORD_SIZE == n;
    SameChunk(file, n, n - 1);
    var clean := file[..RECORD_SIZE * n];
    if records != [] {
      assert Chunk(clean, 4 + (|records| - 1)) == Encoded(records[|records| - 1]);
      DecodeEncoded(records[|records| - 1]);
    } else {
      NoHeaderRecord(clean, records, 3);
    }
  }

  lemma NoHeaderRecord(file: seq<byte>, records: seq<Record>, j: nat)
    requires Clean(file, records) && j < 4
    ensures RECORD_SIZE * (j + 1) <= |file| && Decode(Chunk(file, j)) == None
  {
    hide ReadU64;
    assert Chunk(file, j)[0] == file[RECORD_SIZE * j];
  }

  /** The records of a file are all that its whole chunks can be read as. */
  lemma StampedRecord(file: seq<byte>, records: seq<Record>, syncs: nat, stamp: U64, j: nat)
    requires Stamped(file, records, syncs, stamp) && syncs < 8
    requires RECORD_SIZE * (j + 1) <= |file| && Decode(Chunk(file, j)).Some?
    ensures 4 <= j < 4 + |records| && Decode(Chunk(file, j)).value == records[j - 4]
  {
    hide Decode, Encoded;
    var n := 4 + |records|;
    SameChunk(file, n, j);
    CleanRecord(file[..RECORD_SIZE * n], records, j);
  }

  /**
   With one writer and no counter overflow: opening and replaying a log that appending sessions and a session with
   fewer than eight final syncs left behind puts the counter above every timestamp in it.
   */
  lemma ReplayedStampIsFresh(first: seq<WalOp>, later: seq<seq<WalOp>>, ops: seq<WalOp>, j: nat)
    requires Appending(first, later) && NoWriteAfterSync(ops) && SyncCount(KindsOf(ops)) < 8
    requires |Written(AllOps(first, later) + ops, 1)| + 1 < 0x1_0000_0000_0000_0000
    ensures var file := ApplyAll(Reopened(SessionsFile(first, later)), ops).file;
      var counter := ReplayedStamp(file, RecoveredStamp(file));
      && counter == |Written(AllOps(first, later) + ops, 1)| + 1
      && (RECORD_SIZE * (j + 1) <= |file| && Decode(Chunk(file, j)).Some? ==> Decode(Chunk(file, j)).value.timestamp < counter)
  {
    hide Clean, Decode, Written, RecoveredStamp, ReplayedStamp, Stamp, Chunk, SessionsFile, AllOps, Stamped, ApplyAll, SyncCount;
    var d, before := Reopened(SessionsFile(first, later)), Written(AllOps(first, later), 1);
    SessionsStayClean(first, later);
    RecoveredContinues(SessionsFile(first, later), AllOps(first, later));
    SyncsStamp(d, ops, before);
    WrittenConcat(AllOps(first, later), ops, 1);
    var all, records, file := AllOps(first, later) + ops, Written(AllOps(first, later) + ops, 1), ApplyAll(d, ops).file;
    var syncs, stamp := SyncCount(KindsOf(ops)), ApplyAll(d, ops).monotonic;
    ReplayedStampOfStamped(file, records, syncs, stamp, RecoveredStamp(file));
    StampWithoutOverflow(1, |records|);
    if records == [] {
      ShortFile(file, syncs, stamp);
    } else {
      WrittenStamps(all, 1, |records| - 1);
      StampStep(1, |records| - 1);
    }
    if RECORD_SIZE * (j + 1) <= |file| && Decode(Chunk(file, j)).Some? {
      StampedRecord(file, records, syncs, stamp, j);
      WrittenStamps(all, 1, j - 4);
      StampWithoutOverflow(1, j - 4);
    }
  }

  lemma ShortFile(file: seq<byte>, syncs: nat, stamp: U64)
    requires Stamped(file, [], syncs, stamp) && syncs < 8
    ensures RecoveredStamp(file) == 1
  {}

  // ----- and no others -----

  lemma NextLowByte(ts: U64, n: nat)
    requires ts % 256 == n % 256
    ensures NextStamp(ts) % 256 == (n + 1) % 256
  {}

  /** The counter's low byte goes round every 256 records, also where the counter itself wraps. */
  lemma {:induction false} StampLowByte(from: U64, n: nat)
    ensures Stamp(from, n) % 256 == (from + n) % 256
  {
    hide NextStamp;
    if n > 0 {
      StampLowByte(from, n - 1);
      NextLowByte(Stamp(from, n - 1), from + n - 1);
    }
  }

  lemma FirstByte(n: U64)
    ensures WriteU64(n)[0] as int == n % 256
  {}

  /** A session on a reopened log only ever extends the file. */
  lemma {:induction false} OnlyExtends(d: Disk, a: seq<WalOp>, b: seq<WalOp>)
    requires d.appending
    ensures ApplyAll(d, a).file <= ApplyAll(d, a + b).file
    decreases |b|
  {
    if b == [] {
      assert a + b == a;
    } else {
      assert (a + b)[..|a + b| - 1] == a + b[..|b| - 1];
      OnlyExtends(d, a, b[..|b| - 1]);
    }
  }

  lemma {:induction false} LeavesInGrows(data: seq<byte>, m: nat, n: nat)
    requires m <= n && RECORD_SIZE * n <= |data|
    ensures LeavesIn(data, m) <= LeavesIn(data, n)
    decreases n
  {
    hide LeafOf, Chunk;
    if m < n {
      LeavesInGrows(data, m, n - 1);
    }
  }

  /** The 64 bytes behind a clean log read as a leaf whose hash starts with a byte other than 4. */
  ghost predicate StrayLeaf(file: seq<byte>, base: nat) {
    |file| >= base + RECORD_SIZE && file[base] == 1 && file[base + 16] != 4
  }

  lemma StrayChunk(file: seq<byte>, m: nat)
    requires StrayLeaf(file, RECORD_SIZE * m)
    ensures |LeafOf(Chunk(file, m))| == 1 && LeafOf(Chunk(file, m))[0][0] != 4
  {
    hide ReadU64;
    var chunk := Chunk(file, m);
    assert chunk[0] == file[RECORD_SIZE * m] && chunk[16] == file[RECORD_SIZE * m + 16];
    assert chunk[16..48][0] == chunk[16];
  }

  lemma StrayLeafIsReplayed(file: seq<byte>, m: nat)
    requires StrayLeaf(file, RECORD_SIZE * m)
    ensures exists i :: 0 <= i < |Replayed(file)| && Replayed(file)[i][0] != 4
  {
    StrayChunk(file, m);
    hide LeafOf, Chunk;
    LeavesInGrows(file, m + 1, |file| / RECORD_SIZE);
    assert LeavesIn(file, m + 1)[|LeavesIn(file, m)|] == LeafOf(Chunk(file, m))[0];
    assert LeavesIn(file, m + 1)[|LeavesIn(file, m)|] == Replayed(file)[|LeavesIn(file, m)|];
  }

  lemma {:induction false} LoggedAreFilled(ops: seq<WalOp>, b: byte)
    requires forall i :: 0 <= i < |ops| && ops[i].Write? ==> ops[i].hash == Filled(b)
    ensures forall i :: 0 <= i < |LoggedLeaves(ops)| ==> LoggedLeaves(ops)[i] == Filled(b)
    decreases |ops|
  {
    if ops != [] {
      LoggedAreFilled(ops[..|ops| - 1], b);
    }
  }

  /** n heartbeats. */
  function Heartbeats(n: nat): (ops: seq<WalOp>)
    ensures |ops| == n && forall i :: 0 <= i < n ==> ops[i] == Write(Heartbeat, 0, Filled(4), 0)
  {
    seq(n, _ => Write(Heartbeat, 0, Filled(4), 0))
  }

  lemma {:induction false} EveryWriteIsWritten(ops: seq<WalOp>, from: U64)
    requires OnlyWrites(ops)
    ensures |Written(ops, from)| == |ops|
    decreases |ops|
  {
    if ops != [] {
      EveryWriteIsWritten(ops[..|ops| - 1], from);
    }
  }

  /** Eight stamps, or fewer and a record right behind them, read as a stray leaf when the counter's low byte is 1. */
  lemma StampsMakeStrayLeaf(file: seq<byte>, records: seq<Record>, syncs: nat, stamp: U64, r: Record)
    requires Stamped(file, records, syncs, stamp) && syncs > 0 && stamp % 256 == 1 && r.leafIndex == 0
    ensures var base := RECORD_SIZE * (4 + |records|);
      && (syncs >= 8 ==> StrayLeaf(file, base))
      && StrayLeaf(Overwrite(file, |file|, Encoded(r)), base)
  {
    hide Clean, Encoded;
    var base := RECORD_SIZE * (4 + |records|);
    FirstByte(stamp);
    EncodedFields(r);
    FirstByte(0);
    var buf := Encoded(r);
    assert buf[8] == buf[8..16][0] == 0 && buf[0] != 4;
    assert file[base + 8 * 0] == 1;
    if syncs >= 3 {
      assert file[base + 8 * 2] == 1;
    }
  }

  lemma {:induction false} WrittenSize(ops: seq<WalOp>, from: U64, other: U64)
    ensures |Written(ops, from)| == |Written(ops, other)|
    decreases |ops|
  {
    if ops != [] {
      WrittenSize(ops[..|ops| - 1], from, other);
    }
  }

  /** How many heartbeats bring the counter's low byte to 1 after the writes of a session. */
  function Padding(ops: seq<WalOp>): (n: nat)
    ensures (n + |Written(ops, 1)|) % 256 == 0
  {
    256 - |Written(ops, 1)| % 256
  }

  /** The log holding so many heartbeats, reopened. */
  function Padded(n: nat): (d: Disk)
    ensures d.appending
  {
    Reopened(SessionsFile(Heartbeats(n), []))
  }

  lemma PaddedIsClean(n: nat)
    ensures Clean(Padded(n).file, Written(Heartbeats(n), 1)) && |Written(Heartbeats(n), 1)| == n
    ensures Padded(n).monotonic == Stamp(1, n)
    ensures Appending(Heartbeats(n), [])
  {
    hide Clean, Stamp, RecoveredStamp;
    SessionsStayClean(Heartbeats(n), []);
    RecoveredContinues(SessionsFile(Heartbeats(n), []), Heartbeats(n));
    EveryWriteIsWritten(Heartbeats(n), 1);
  }

  /** The state once the stamps behind the padded log are all of low byte 1. */
  lemma PaddedSyncs(ops: seq<WalOp>)
    requires NoWriteAfterSync(ops)
    ensures var n := Padding(ops); var d := ApplyAll(Padded(n), ops); var records := Written(Heartbeats(n), 1) + Written(ops, Padded(n).monotonic);
      && |records| == n + |Written(ops, 1)|
      && Stamped(d.file, records, SyncCount(KindsOf(ops)), d.monotonic) && d.monotonic % 256 == 1
  {
    hide Clean, Stamp, Stamped, Padded, Written, ApplyAll;
    var n := Padding(ops);
    PaddedIsClean(n);
    SyncsStamp(Padded(n), ops, Written(Heartbeats(n), 1));
    WrittenSize(ops, Padded(n).monotonic, 1);
    StampsAdd(1, n, |Written(ops, 1)|);
    StampLowByte(1, n + |Written(ops, 1)|);
  }

  lemma StrayStays(file: seq<byte>, longer: seq<byte>, base: nat)
    requires file <= longer && StrayLeaf(file, base)
    ensures StrayLeaf(longer, base)
  {}

  lemma ApplyOneMore(d: Disk, ops: seq<WalOp>, c: nat)
    requires Usable(d) && (d.appending || |d.file| >= HEADER_SIZE) && c < |ops|
    ensures ApplyAll(d, ops[..c + 1]) == ApplyOp(ApplyAll(d, ops[..c]), ops[c])
  {
    assert ops[..c + 1][..c] == ops[..c];
  }

  lemma StrayAppears(ops: seq<WalOp>, c: nat)
    requires c <= |ops| && NoWriteAfterSync(ops[..c]) && SyncCount(KindsOf(ops[..c])) > 0
    requires if c == |ops| then SyncCount(KindsOf(ops)) >= 8 else ops[c].Write? && ops[c].leafIndex == 0
    ensures var n := Padding(ops[..c]);
      StrayLeaf(ApplyAll(Padded(n), ops).file, RECORD_SIZE * (4 + n + |Written(ops[..c], 1)|))
  {
    hide Clean, Stamped, Padded, Written, StrayLeaf, SyncCount, Encoded, ApplyAll, KindsOf, NoWriteAfterSync, Overwrite;
    var a := ops[..c];
    var n := Padding(a);
    var d, records := ApplyAll(Padded(n), a), Written(Heartbeats(n), 1) + Written(a, Padded(n).monotonic);
    var base := RECORD_SIZE * (4 + |records|);
    PaddedSyncs(a);
    if c == |ops| {
      assert a == ops;
      StampsMakeStrayLeaf(d.file, records, SyncCount(KindsOf(a)), d.monotonic, Record(Leaf, 0, Filled(4), 0, 0));
    } else {
      var r := RecordFor(d, ops[c]);
      StampsMakeStrayLeaf(d.file, records, SyncCount(KindsOf(a)), d.monotonic, r);
      WriteAtEnd(d, ops[c]);
      var b := ops[..c + 1];
      ApplyOneMore(Padded(n), ops, c);
      assert b + ops[c + 1..] == ops;
      OnlyExtends(Padded(n), b, ops[c + 1..]);
      StrayStays(ApplyAll(Padded(n), b).file, ApplyAll(Padded(n), ops).file, base);
    }
  }

  /** Where a write first follows a sync, as seen in operations of these kinds. */
  lemma FirstFailure(kinds: seq<Kind>, ops: seq<WalOp>) returns (c: nat)
    requires !NoWriteAfterSyncKind(kinds) && KindsOf(ops) == kinds
    ensures c < |ops| && ops[c].Write? && NoWriteAfterSync(ops[..c]) && SyncCount(KindsOf(ops[..c])) > 0
  {
    c := FirstWriteAfterSync(kinds);
    assert KindsOf(ops[..c]) == kinds[..c];
    SameKinds(ops[..c]);
    assert KindsOf(ops)[c] == KindOf(ops[c]) && KindsOf(ops)[c - 1] == KindOf(ops[c - 1]);
    assert KindsOf(ops[..c])[c - 1].SyncKind?;
  }

  /** For every other kind of session some log and some contents make a replay invent a leaf. */
  lemma OtherSessionsCanFail(kinds: seq<Kind>)
    requires !NoWriteAfterSyncKind(kinds) || SyncCount(kinds) >= 8
    ensures !ReopenedFaithful(kinds)
  {
    hide Clean, Written, Replayed, Stamped, ApplyAll, Padded, RecoveredStamp, StrayLeaf, Stamp, LoggedLeaves, SyncCount,
         NoWriteAfterSync, NoWriteAfterSyncKind, ReopenedFaithful;
    var ops := Fill(kinds, 4);
    assert KindsOf(ops) == kinds;
    if NoWriteAfterSyncKind(kinds) {
      SameKinds(ops);
      assert ops[..|ops|] == ops;
      StrayAppears(ops, |ops|);
      StrayIsUnfaithful(kinds, |ops|);
    } else {
      var c := FirstFailure(kinds, ops);
      StrayAppears(ops, c);
      StrayIsUnfaithful(kinds, c);
    }
  }

  lemma StrayIsUnfaithful(kinds: seq<Kind>, c: nat)
    requires c <= |kinds|
    requires var ops := Fill(kinds, 4); var n := Padding(ops[..c]);
      StrayLeaf(ApplyAll(Padded(n), ops).file, RECORD_SIZE * (4 + n + |Written(ops[..c], 1)|))
    ensures !ReopenedFaithful(kinds)
  {
    hide Clean, Written, Replayed, ApplyAll, RecoveredStamp, StrayLeaf, LoggedLeaves, SessionsFile;
    var ops := Fill(kinds, 4);
    var n := Padding(ops[..c]);
    var first := Heartbeats(n);
    var file := ApplyAll(Padded(n), ops).file;
    StrayLeafIsReplayed(file, 4 + n + |Written(ops[..c], 1)|);
    LoggedAreFilled(first, 4);
    LoggedAreFilled(ops, 4);
    assert KindsOf(ops) == kinds;
    assert Appending(first, []) && AllOps(first, []) == first;
    assert Replayed(file) != LoggedLeaves(first) + LoggedLeaves(ops);
  }

  /**
   A session on a reopened log replays to exactly what was logged, on every log left by appending sessions and for
   all contents, if and only if it appends nothing after a sync and syncs fewer than eight times.
   */
  lemma ReopenedFaithfulIffFewFinalSyncs(kinds: seq<Kind>)
    ensures ReopenedFaithful(kinds) <==> NoWriteAfterSyncKind(kinds) && SyncCount(kinds) < 8
  {
    hide Clean, Written, Replayed, ApplyAll, RecoveredStamp, LoggedLeaves, SessionsFile, AllOps, Appending, NoWriteAfterSyncKind, SyncCount;
    if NoWriteAfterSyncKind(kinds) && SyncCount(kinds) < 8 {
      forall first: seq<WalOp>, later: seq<seq<WalOp>>, ops: seq<WalOp> | Appending(first, later) && KindsOf(ops) == kinds
        ensures Replayed(ApplyAll(Reopened(SessionsFile(first, later)), ops).file) == LoggedLeaves(AllOps(first, later)) + LoggedLeaves(ops)
      {
        SameKinds(ops);
        FewFinalSyncsAreFaithful(first, later, ops);
      }
    } else {
      OtherSessionsCanFail(kinds);
    }
  }
}
