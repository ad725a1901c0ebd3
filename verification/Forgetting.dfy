/** What the cortex keeps and forgets over whole runs of packets and REM cycles. */
module Forgetting {
  import opened KnowledgeTable

  // ----- what every operation keeps -----

  function Occupied(slots: seq<Entry>): (n: nat)
    ensures n <= |slots|
  {
    if slots == [] then 0 else Occupied(slots[..|slots| - 1]) + if slots[|slots| - 1].fragmentId != 0 then 1 else 0
  }

  /** Fragments are distinct, the count is exact, free slots are blank, strengths fit a byte. */
  ghost predicate TableOk(t: Table) {
    && |t.slots| == TABLE_SIZE
    && (forall i, j :: 0 <= i < j < TABLE_SIZE && t.slots[i].fragmentId != 0 ==> t.slots[i].fragmentId != t.slots[j].fragmentId)
    && t.count == Occupied(t.slots)
    && (forall i :: 0 <= i < TABLE_SIZE && t.slots[i].fragmentId == 0 ==> t.slots[i] == FREE)
    && (forall i :: 0 <= i < TABLE_SIZE ==> t.slots[i].strength <= 255)
  }

  ghost predicate Holds(t: Table, x: nat) {
    exists i :: 0 <= i < |t.slots| && t.slots[i].fragmentId == x
  }

  lemma {:induction false} OccupiedUpdate(slots: seq<Entry>, i: nat, e: Entry)
    requires i < |slots|
    ensures Occupied(slots[i := e]) + (if slots[i].fragmentId != 0 then 1 else 0) == Occupied(slots) + if e.fragmentId != 0 then 1 else 0
    decreases |slots|
  {
    var n, updated := |slots| - 1, slots[i := e];
    if i < n {
      assert updated[..n] == slots[..n][i := e];
      OccupiedUpdate(slots[..n], i, e);
    } else {
      assert updated[..n] == slots[..n];
    }
  }

  lemma InsertKeepsTable(t: Table, id: nat, strength: nat, now: nat)
    requires TableOk(t) && strength <= 255
    ensures TableOk(Inserted(t, id, strength, now))
  {
    hide Weakest, FirstWith, Occupied;
    if id != 0 {
      var i, j := FirstWith(t.slots, id), FirstWith(t.slots, 0);
      var t' := Inserted(t, id, strength, now);
      if i < TABLE_SIZE {
        OccupiedUpdate(t.slots, i, t'.slots[i]);
      } else if j < TABLE_SIZE {
        OccupiedUpdate(t.slots, j, t'.slots[j]);
      } else {
        var v := Victim(t.slots, now);
        OccupiedUpdate(t.slots, v, t'.slots[v]);
      }
    }
  }

  lemma {:induction false} OccupiedSame(a: seq<Entry>, b: seq<Entry>)
    requires |a| == |b| && forall i :: 0 <= i < |a| ==> a[i].fragmentId == b[i].fragmentId
    ensures Occupied(a) == Occupied(b)
    decreases |a|
  {
    if a != [] {
      OccupiedSame(a[..|a| - 1], b[..|b| - 1]);
    }
  }

  lemma DecayKeepsTable(t: Table, now: nat)
    requires TableOk(t)
    ensures TableOk(t.(slots := Decayed(t.slots, now)))
  {
    hide Score;
    OccupiedSame(t.slots, Decayed(t.slots, now));
  }

  lemma ClearOneKeepsTable(t: Table, id: nat)
    requires TableOk(t) && id != 0
    ensures TableOk(ClearedOne(t, id))
  {
    hide FirstWith, Occupied;
    var i := FirstWith(t.slots, id);
    if i < TABLE_SIZE {
      OccupiedUpdate(t.slots, i, ClearedOne(t, id).slots[i]);
    }
  }

  lemma {:induction false} ClearKeepsTable(t: Table, ids: seq<nat>)
    requires TableOk(t) && forall k :: 0 <= k < |ids| ==> ids[k] != 0
    ensures TableOk(Cleared(t, ids))
    decreases |ids|
  {
    if ids != [] {
      ClearKeepsTable(t, ids[..|ids| - 1]);
      ClearOneKeepsTable(Cleared(t, ids[..|ids| - 1]), ids[|ids| - 1]);
    }
  }

  /** The collected fragments are exactly the dirty ones. */
  lemma {:induction false} DirtyIdsExact(slots: seq<Entry>)
    ensures forall k :: 0 <= k < |DirtyIds(slots)| ==> DirtyIds(slots)[k] != 0
    ensures forall i :: 0 <= i < |slots| && slots[i].dirty && slots[i].fragmentId != 0 ==> slots[i].fragmentId in DirtyIds(slots)
    ensures forall x <- DirtyIds(slots) :: exists i :: 0 <= i < |slots| && slots[i].dirty && slots[i].fragmentId == x
    decreases |slots|
  {
    if slots != [] {
      DirtyIdsExact(slots[..|slots| - 1]);
    }
  }

  /** The host reports no more fragments processed than it was sent. */
  ghost predicate Honest(host: Host) {
    forall ids :: host(ids) <= |ids|
  }

  lemma RemKeepsTable(t: Table, now: nat, host: Host)
    requires TableOk(t) && Honest(host)
    ensures TableOk(AfterRem(t, now, host))
  {
    var decayed := t.(slots := Decayed(t.slots, now));
    DecayKeepsTable(t, now);
    DirtyIdsExact(decayed.slots);
    hide TableOk, DirtyIds, Decayed, Cleared;
    var ids := DirtyIds(decayed.slots);
    ClearKeepsTable(decayed, Buffered(ids, host(ids)));
  }

  lemma {:induction false} ClearedSplits(t: Table, a: seq<nat>, b: seq<nat>)
    ensures Cleared(t, a + b) == Cleared(Cleared(t, a), b)
    decreases |b|
  {
    hide ClearedOne;
    if b == [] {
      assert a + b == a;
    } else {
      assert (a + b)[..|a + b| - 1] == a + b[..|b| - 1];
      ClearedSplits(t, a, b[..|b| - 1]);
    }
  }

  /** A padding zero finds the first free slot: the slots stay as they are, and the count drops. */
  lemma {:induction false} ZerosLowerCount(t: Table, k: nat)
    requires TableOk(t)
    ensures var r := Cleared(t, Zeros(k));
      r.slots == t.slots && r.count == if !Holds(t, 0) then t.count else if k <= t.count then t.count - k else 0
  {
    hide Occupied;
    if k > 0 {
      assert Zeros(k)[..k - 1] == Zeros(k - 1);
      ZerosLowerCount(t, k - 1);
    }
  }

  lemma {:induction false} FullIffNoneFree(slots: seq<Entry>)
    ensures Occupied(slots) == |slots| <==> forall i :: 0 <= i < |slots| ==> slots[i].fragmentId != 0
    decreases |slots|
  {
    if slots != [] {
      FullIffNoneFree(slots[..|slots| - 1]);
    }
  }

  lemma SurplusKeepsTableIff(t: Table, k: nat)
    requires TableOk(t) && k > 0
    ensures TableOk(Cleared(t, Zeros(k))) <==> t.count == 0 || t.count == TABLE_SIZE
  {
    hide Cleared;
    ZerosLowerCount(t, k);
    FullIffNoneFree(t.slots);
  }

  /**
   A host that claims more than it was sent, within the buffer: the padding lowers the count, so the table stays
   in order exactly when nothing is left of the table after the cycle or nothing of it is free.
   */
  lemma RemKeepsTableIff(t: Table, now: nat, host: Host)
    requires TableOk(t)
    ensures var decayed := t.(slots := Decayed(t.slots, now)); var ids := DirtyIds(decayed.slots);
      TableOk(AfterRem(t, now, host)) <==>
        ids == [] || host(ids) <= |ids| || Cleared(decayed, ids).count == 0 || Cleared(decayed, ids).count == TABLE_SIZE
  {
    var decayed := t.(slots := Decayed(t.slots, now));
    DecayKeepsTable(t, now);
    DirtyIdsExact(decayed.slots);
    var ids := DirtyIds(decayed.slots);
    hide DirtyIds, Decayed, Cleared, TableOk;
    if host(ids) <= |ids| {
      ClearKeepsTable(decayed, ids[..host(ids)]);
    } else {
      ClearKeepsTable(decayed, ids);
      ClearedSplits(decayed, ids, Zeros(host(ids) - |ids|));
      SurplusKeepsTableIff(Cleared(decayed, ids), host(ids) - |ids|);
    }
  }

  lemma ClearOneCleans(t: Table, id: nat)
    requires TableOk(t) && id != 0
    ensures var r := ClearedOne(t, id).slots;
      forall i :: 0 <= i < TABLE_SIZE && r[i].dirty ==> t.slots[i] == r[i] && r[i].fragmentId != id
  {
    hide Occupied;
  }

  /** After clearing, a slot is dirty only if it was before and its fragment was not processed. */
  lemma {:induction false} ClearedIsClean(t: Table, ids: seq<nat>)
    requires TableOk(t) && forall k :: 0 <= k < |ids| ==> ids[k] != 0
    ensures var r := Cleared(t, ids).slots;
      forall i :: 0 <= i < TABLE_SIZE && r[i].dirty ==> t.slots[i] == r[i] && r[i].fragmentId !in ids
    decreases |ids|
  {
    if ids != [] {
      var before, id := ids[..|ids| - 1], ids[|ids| - 1];
      ClearedIsClean(t, before);
      ClearKeepsTable(t, before);
      ClearOneCleans(Cleared(t, before), id);
      hide TableOk, ClearedOne;
      assert ids == before + [id];
    }
  }

  ghost predicate AllClean(t: Table) {
    forall i :: 0 <= i < |t.slots| ==> !t.slots[i].dirty
  }

  /** A host that processes everything it is sent. */
  ghost predicate Complete(host: Host) {
    forall ids :: host(ids) == |ids|
  }

  /** When the host processes everything it is sent, no slot is dirty after a cycle. */
  lemma CompleteCycleLeavesNothingDirty(t: Table, now: nat, host: Host)
    requires TableOk(t) && Complete(host)
    ensures AllClean(AfterRem(t, now, host))
  {
    hide FirstWith, Occupied, Decayed, ClearedOne;
    var decayed := t.(slots := Decayed(t.slots, now));
    var ids := DirtyIds(decayed.slots);
    DecayKeepsTable(t, now);
    DirtyIdsExact(decayed.slots);
    ClearedIsClean(decayed, ids);
    ClearKeepsTable(decayed, ids);
    assert ids[..|ids|] == ids;
  }

  // ----- which fragments a cycle processes -----

  /** What processing does to a slot: it is freed when its strength is gone, and unmarked otherwise. */
  function Processed(e: Entry): Entry {
    if e.strength == 0 then FREE else e.(dirty := false)
  }

  /** How many of the first n slots are dirty. */
  function DirtyBefore(slots: seq<Entry>, n: nat): nat
    requires n <= |slots|
  {
    if n == 0 then 0 else DirtyBefore(slots, n - 1) + if slots[n - 1].dirty then 1 else 0
  }

  /** The k-th collected fragment is that of the dirty slot with k dirty ones before it. */
  lemma {:induction false} CollectedInOrder(t: Table, n: nat)
    requires TableOk(t) && n <= TABLE_SIZE
    ensures |DirtyIds(t.slots[..n])| == DirtyBefore(t.slots, n)
    ensures forall i :: 0 <= i < n && t.slots[i].dirty ==>
      DirtyBefore(t.slots, i) < DirtyBefore(t.slots, n) && DirtyIds(t.slots[..n])[DirtyBefore(t.slots, i)] == t.slots[i].fragmentId
    decreases n
  {
    if n > 0 {
      hide Occupied;
      CollectedInOrder(t, n - 1);
      assert t.slots[..n][..n - 1] == t.slots[..n - 1];
    }
  }

  /** The dirty slot with k dirty ones before it. */
  lemma {:induction false} KthDirty(slots: seq<Entry>, n: nat, k: nat) returns (i: nat)
    requires n <= |slots| && k < DirtyBefore(slots, n)
    ensures i < n && slots[i].dirty && DirtyBefore(slots, i) == k
  {
    if k < DirtyBefore(slots, n - 1) {
      i := KthDirty(slots, n - 1, k);
    } else {
      i := n - 1;
    }
  }

  /** A fragment is among the first m collected exactly when fewer than m dirty slots come before its own. */
  lemma AmongFirst(t: Table, m: nat, i: nat)
    requires TableOk(t) && m <= |DirtyIds(t.slots)| && i < TABLE_SIZE
    ensures t.slots[i].fragmentId in DirtyIds(t.slots)[..m] <==> t.slots[i].dirty && DirtyBefore(t.slots, i) < m
  {
    hide DirtyIds, DirtyBefore, Occupied;
    CollectedInOrder(t, TABLE_SIZE);
    assert t.slots[..TABLE_SIZE] == t.slots;
    DirtyIdsExact(t.slots);
    var first := DirtyIds(t.slots)[..m];
    if t.slots[i].fragmentId in first {
      var k :| 0 <= k < m && first[k] == t.slots[i].fragmentId;
      var j := KthDirty(t.slots, TABLE_SIZE, k);
      assert t.slots[j].fragmentId == t.slots[i].fragmentId != 0;
    }
    if t.slots[i].dirty && DirtyBefore(t.slots, i) < m {
      assert first[DirtyBefore(t.slots, i)] in first;
    }
  }

  lemma ClearedOneAt(t: Table, id: nat, i: nat)
    requires TableOk(t) && id != 0 && i < TABLE_SIZE
    ensures ClearedOne(t, id).slots[i] == if t.slots[i].fragmentId == id then Processed(t.slots[i]) else t.slots[i]
  {
    hide Occupied;
  }

  /** Clearing processes the slots of these fragments, in whatever order, and no others. */
  lemma {:induction false} ClearedAt(t: Table, ids: seq<nat>, i: nat)
    requires TableOk(t) && i < TABLE_SIZE && forall k :: 0 <= k < |ids| ==> ids[k] != 0
    ensures Cleared(t, ids).slots[i] == if t.slots[i].fragmentId in ids then Processed(t.slots[i]) else t.slots[i]
    decreases |ids|
  {
    if ids != [] {
      hide TableOk, ClearedOne;
      var before, id := ids[..|ids| - 1], ids[|ids| - 1];
      assert ids == before + [id];
      ClearedAt(t, before, i);
      ClearKeepsTable(t, before);
      ClearedOneAt(Cleared(t, before), id, i);
    }
  }

  /**
   A cycle, slot by slot: of the slots dirty after decay, those with fewer dirty ones before them than the host says
   it processed are unmarked or freed; every other slot is just its decayed self.
   */
  lemma CycleProcessesFirstDirty(t: Table, now: nat, host: Host, i: nat)
    requires TableOk(t) && Honest(host) && i < TABLE_SIZE
    ensures var decayed := Decayed(t.slots, now);
      AfterRem(t, now, host).slots[i] ==
        if decayed[i].dirty && DirtyBefore(decayed, i) < host(DirtyIds(decayed)) then Processed(decayed[i]) else decayed[i]
  {
    hide TableOk, Decayed, DirtyIds, DirtyBefore, Cleared, Processed;
    var decayed := t.(slots := Decayed(t.slots, now));
    var ids := DirtyIds(decayed.slots);
    DecayKeepsTable(t, now);
    DirtyIdsExact(decayed.slots);
    var m := host(ids);
    AmongFirst(decayed, m, i);
    ClearedAt(decayed, ids[..m], i);
  }

  // ----- whole runs -----

  /** The strength is a byte and the host honest. */
  ghost predicate Proper(p: Packet) {
    p.strength <= 255 && Honest(p.host)
  }

  ghost predicate AllProper(packets: seq<Packet>) {
    forall i :: 0 <= i < |packets| ==> Proper(packets[i])
  }

  lemma IngestKeepsTable(c: Cortex, p: Packet)
    requires TableOk(c.table) && Proper(p)
    ensures TableOk(Ingest(c, p).table)
  {
    hide Inserted, AfterRem, Occupied;
    var now := After(c.ingestCount, 1);
    InsertKeepsTable(c.table, p.id, p.strength, now);
    RemKeepsTable(Inserted(c.table, p.id, p.strength, now), now, p.host);
  }

  lemma {:induction false} RunKeepsTable(c: Cortex, packets: seq<Packet>)
    requires TableOk(c.table) && AllProper(packets)
    ensures TableOk(Feed(c, packets).table)
    decreases |packets|
  {
    hide Ingest, Occupied;
    if packets != [] {
      var n := |packets| - 1;
      RunKeepsTable(c, packets[..n]);
      IngestKeepsTable(Feed(c, packets[..n]), packets[n]);
    }
  }

  // ----- forgetting -----

  /** Only a fragment without resonance can fade: from 107 hits on, 3 * hits alone reach the threshold. */
  lemma SparedIffResonant(hits: nat)
    ensures hits >= 107 <==> forall e: Entry, now: nat :: e.hitCount == hits && !e.dirty ==> !DecayedEntry(e, now).dirty
  {
    if hits < 107 {
      assert DecayedEntry(Entry(1, 0, hits, 0, false), 256).dirty;
    }
  }

  ghost predicate ResonantClean(t: Table) {
    forall i :: 0 <= i < |t.slots| && t.slots[i].hitCount >= 107 ==> !t.slots[i].dirty
  }

  /** What clearing leaves of a slot: a free one, or the same entry up to its mark. */
  lemma {:induction false} ClearedSlots(t: Table, ids: seq<nat>)
    ensures var r := Cleared(t, ids).slots;
      forall i :: 0 <= i < |r| ==> r[i] == FREE || r[i] == t.slots[i] || (r[i] == t.slots[i].(dirty := false) && t.slots[i].fragmentId in ids)
    ensures var r := Cleared(t, ids).slots;
      forall i :: 0 <= i < |r| && t.slots[i].strength > 0 ==> r[i].fragmentId == t.slots[i].fragmentId
    ensures var r := Cleared(t, ids).slots;
      forall i :: 0 <= i < |r| && t.slots[i].fragmentId !in ids ==> r[i] == t.slots[i]
    decreases |ids|
  {
    if ids != [] {
      var before, id := ids[..|ids| - 1], ids[|ids| - 1];
      ClearedSlots(t, before);
      assert ids == before + [id];
    }
  }

  lemma ResonantNotDirty(slots: seq<Entry>, now: nat, i: nat)
    requires TableOk(Table(slots, Occupied(slots)))
    requires i < |slots| && slots[i].hitCount >= 107 && !slots[i].dirty && slots[i].fragmentId != 0
    ensures slots[i].fragmentId !in DirtyIds(Decayed(slots, now))
  {
    hide Occupied, DirtyIds;
    DirtyIdsExact(Decayed(slots, now));
  }

  /** A cycle neither marks nor frees a fragment with 107 hits or more. */
  lemma RemSparesResonant(t: Table, now: nat, host: Host, i: nat)
    requires TableOk(t) && i < |t.slots| && t.slots[i].hitCount >= 107 && !t.slots[i].dirty
    ensures var e := AfterRem(t, now, host).slots[i];
      e.fragmentId == t.slots[i].fragmentId && e.hitCount == t.slots[i].hitCount && !e.dirty
  {
    hide Occupied, DirtyIds, Cleared;
    var decayed := t.(slots := Decayed(t.slots, now));
    var ids := DirtyIds(decayed.slots);
    ResonantNotDirty(t.slots, now, i);
    ClearedSlots(decayed, Buffered(ids, host(ids)));
  }

  /** A fragment with 107 hits is lost only when a new fragment evicts it from a full table. */
  lemma ResonantLostOnlyByEviction(c: Cortex, p: Packet, i: nat)
    requires TableOk(c.table) && p.strength <= 255
    requires i < TABLE_SIZE && c.table.slots[i].hitCount >= 107 && !c.table.slots[i].dirty
    ensures var e := Ingest(c, p).table.slots[i];
      || (e.fragmentId == c.table.slots[i].fragmentId && e.hitCount >= 107 && !e.dirty)
      || (p.id != 0 && !Holds(c.table, p.id) && !Holds(c.table, 0) && Victim(c.table.slots, After(c.ingestCount, 1)) == i)
  {
    hide Occupied, AfterRem, Weakest;
    var now := After(c.ingestCount, 1);
    var t := Inserted(c.table, p.id, p.strength, now);
    InsertKeepsTable(c.table, p.id, p.strength, now);
    if t.slots[i].hitCount >= 107 && !t.slots[i].dirty {
      RemSparesResonant(t, now, p.host, i);
    }
  }

  lemma RemKeepsHits(t: Table, now: nat, host: Host, i: nat)
    requires i < |t.slots|
    ensures AfterRem(t, now, host).slots[i].hitCount <= t.slots[i].hitCount
  {
    hide DirtyIds, Cleared, Score;
    var decayed := t.(slots := Decayed(t.slots, now));
    var ids := DirtyIds(decayed.slots);
    ClearedSlots(decayed, Buffered(ids, host(ids)));
  }

  lemma IngestKeepsResonantClean(c: Cortex, p: Packet)
    requires TableOk(c.table) && p.strength <= 255 && ResonantClean(c.table)
    ensures ResonantClean(Ingest(c, p).table)
  {
    hide Occupied, AfterRem, Weakest, FirstWith;
    var now := After(c.ingestCount, 1);
    var t := Inserted(c.table, p.id, p.strength, now);
    InsertKeepsTable(c.table, p.id, p.strength, now);
    assert ResonantClean(t);
    forall i | 0 <= i < TABLE_SIZE && now % REM_INTERVAL == 0
      ensures AfterRem(t, now, p.host).slots[i].hitCount >= 107 ==> !AfterRem(t, now, p.host).slots[i].dirty
    {
      RemKeepsHits(t, now, p.host, i);
      if t.slots[i].hitCount >= 107 {
        RemSparesResonant(t, now, p.host, i);
      }
    }
  }

  lemma {:induction false} NothingOccupied(slots: seq<Entry>)
    requires forall i :: 0 <= i < |slots| ==> slots[i] == FREE
    ensures Occupied(slots) == 0
    decreases |slots|
  {
    if slots != [] {
      NothingOccupied(slots[..|slots| - 1]);
    }
  }

  lemma EmptyTable()
    ensures TableOk(EMPTY) && ResonantClean(EMPTY)
  {
    NothingOccupied(EMPTY.slots);
  }

  /** No fragment with 107 hits is ever marked, over any run. */
  lemma {:induction false} RunKeepsResonantClean(c: Cortex, packets: seq<Packet>)
    requires |c.table.slots| == TABLE_SIZE && TableOk(c.table) && AllProper(packets) && ResonantClean(c.table)
    ensures ResonantClean(Feed(c, packets).table)
    decreases |packets|
  {
    hide Ingest, TableOk, ResonantClean;
    if packets != [] {
      var n := |packets| - 1;
      RunKeepsResonantClean(c, packets[..n]);
      RunKeepsTable(c, packets[..n]);
      IngestKeepsResonantClean(Feed(c, packets[..n]), packets[n]);
    }
  }

  /** The cycles that run while n packets follow the start-th. */
  function Cycles(start: nat, n: nat): nat {
    if n == 0 then 0 else Cycles(start, n - 1) + if After(start, n) % REM_INTERVAL == 0 then 1 else 0
  }

  /** The count after n packets and one more, and the age of what was seen at the start. */
  lemma NextCount(start: nat, n: nat)
    requires start < U32 && n + 1 < U32
    ensures var now := After(After(start, n), 1);
      now == After(start, n + 1) && now != start && Age(start, now) == n + 1
  {
    var now := After(After(start, n), 1);
    assert After(start, n) == if start + n < U32 then start + n else start + n - U32;
    assert now == if start + n + 1 < U32 then start + n + 1 else start + n + 1 - U32;
    if now < start {
      assert now - start == -1 * U32 + (n + 1);
    }
  }

  /** How many of the counts so far were multiples of ten, across at most one wrap. */
  function Tens(total: nat): nat {
    if total < U32 then total / 10 else (U32 - 1) / 10 + 1 + (total - U32) / 10
  }

  lemma TensStep(start: nat, n: nat)
    requires start < U32 && 0 < n <= 300
    ensures Tens(start + n) == Tens(start + n - 1) + if After(start, n) % REM_INTERVAL == 0 then 1 else 0
  {
    assert After(start, n) == if start + n < U32 then start + n else start + n - U32;
  }

  lemma {:induction false} CyclesInClosedForm(start: nat, n: nat)
    requires start < U32 && n <= 300
    ensures Cycles(start, n) == Tens(start + n) - Tens(start)
  {
    hide Tens, After;
    if n > 0 {
      CyclesInClosedForm(start, n - 1);
      TensStep(start, n);
    }
  }

  lemma TensGrowth(start: nat, n: nat)
    requires start < U32 && n <= 300
    ensures n - 9 <= 10 * (Tens(start + n) - Tens(start)) <= n + 13
  {}

  /** The twenty-seventh cycle follows more than 255 packets and fewer than 280. */
  lemma {:induction false} CyclesBounds(start: nat, n: nat)
    requires start < U32 && Cycles(start, n) == 27 && (n > 0 ==> Cycles(start, n - 1) == 26)
    ensures 255 < n < 280
  {
    hide Tens, Cycles;
    if n > 300 {
      CyclesInClosedForm(start, 300);
      TensGrowth(start, 300);
      CyclesMonotone(start, 300, n - 1);
    } else {
      CyclesInClosedForm(start, n);
      TensGrowth(start, n);
    }
  }

  lemma {:induction false} CyclesMonotone(start: nat, m: nat, n: nat)
    requires m <= n
    ensures Cycles(start, m) <= Cycles(start, n)
  {
    if m < n {
      CyclesMonotone(start, m, n - 1);
    }
  }

  /** Every slot of the fragment was last seen then, has at most 106 hits and exactly this strength. */
  ghost predicate Fading(t: Table, x: nat, since: nat, strength: nat) {
    forall i :: 0 <= i < |t.slots| && t.slots[i].fragmentId == x ==>
      t.slots[i].lastSeen == since && t.slots[i].hitCount <= 106 && t.slots[i].strength == strength
  }

  lemma InsertOther(t: Table, id: nat, strength: nat, now: nat, x: nat)
    requires |t.slots| == TABLE_SIZE && id != x
    ensures var r := Inserted(t, id, strength, now).slots;
      forall i :: 0 <= i < TABLE_SIZE && r[i].fragmentId == x ==> r[i] == t.slots[i]
  {
    hide FirstWith, Weakest;
  }

  lemma RemFades(t: Table, now: nat, host: Host, x: nat, since: nat, strength: nat)
    requires Fading(t, x, since, strength) && x != 0 && now != since
    ensures Fading(AfterRem(t, now, host), x, since, strength / 2)
  {
    hide DirtyIds, Cleared, Score;
    var decayed := t.(slots := Decayed(t.slots, now));
    var ids := DirtyIds(decayed.slots);
    ClearedSlots(decayed, Buffered(ids, host(ids)));
  }

  /** One of these slots gives way before the other: clean before dirty, then the lower score. */
  predicate GivesWay(a: Entry, b: Entry, now: nat) {
    (a.dirty ==> b.dirty) && (a.dirty == b.dirty ==> Score(a, now) <= Score(b, now))
  }

  /**
   After recording a fragment one slot shows it as just seen and unmarked, reinforced if it was known, and every
   other slot is as before. What that slot held is lost only from a full table, and no other slot would have
   given way first.
   */
  lemma InsertRecords(t: Table, id: nat, strength: nat, now: nat)
    requires |t.slots| == TABLE_SIZE && id != 0
    ensures var r := Inserted(t, id, strength, now).slots; var i := FirstWith(r, id);
      && i < TABLE_SIZE && r[i].lastSeen == now && !r[i].dirty
      && (forall j :: 0 <= j < TABLE_SIZE && j != i ==> r[j] == t.slots[j])
      && if Holds(t, id) then
           && t.slots[i].fragmentId == id
           && r[i].strength >= strength && r[i].strength >= t.slots[i].strength && r[i].strength in {strength, t.slots[i].strength}
           && (t.slots[i].hitCount < 65535 ==> r[i].hitCount == t.slots[i].hitCount + 1)
         else
           && r[i].strength == strength && r[i].hitCount == 0
           && (t.slots[i].fragmentId != 0 ==>
                !Holds(t, 0) && forall j :: 0 <= j < TABLE_SIZE ==> GivesWay(t.slots[i], t.slots[j], now))
  {
    hide Score, Weakest;
    WeakestIsLeast(t.slots, now, true, TABLE_SIZE);
    WeakestIsLeast(t.slots, now, false, TABLE_SIZE);
    var r := Inserted(t, id, strength, now).slots;
    var i := FirstWith(t.slots, id);
    if i == TABLE_SIZE {
      var j := FirstWith(t.slots, 0);
      FirstWithIs(r, id, if j < TABLE_SIZE then j else Victim(t.slots, now));
    } else {
      FirstWithIs(r, id, i);
    }
  }

  /** The strength a fragment has once it is recorded: the greater of the old and the new one. */
  function Recorded(t: Table, id: nat, strength: nat): nat {
    var i := FirstWith(t.slots, id);
    if i < |t.slots| then Max(t.slots[i].strength, strength) else strength
  }

  lemma InsertStartsFading(t: Table, id: nat, strength: nat, now: nat)
    requires TableOk(t) && id != 0 && strength <= 255
    requires forall i :: 0 <= i < TABLE_SIZE && t.slots[i].fragmentId == id ==> t.slots[i].hitCount <= 105
    ensures Fading(Inserted(t, id, strength, now), id, now, Recorded(t, id, strength))
  {
    hide Occupied, Weakest;
  }

  /** A cycle in the very tick leaves what was just seen as it is. */
  lemma RemSparesRecent(t: Table, now: nat, host: Host, x: nat, strength: nat)
    requires Fading(t, x, now, strength) && x != 0
    ensures Fading(AfterRem(t, now, host), x, now, strength)
  {
    hide DirtyIds, Cleared, Score;
    var decayed := t.(slots := Decayed(t.slots, now));
    var ids := DirtyIds(decayed.slots);
    ClearedSlots(decayed, Buffered(ids, host(ids)));
  }

  lemma RemAdmitsNone(t: Table, now: nat, host: Host, x: nat)
    requires x != 0 && !Holds(t, x)
    ensures !Holds(AfterRem(t, now, host), x)
  {
    hide DirtyIds, Cleared, Score;
    var decayed := t.(slots := Decayed(t.slots, now));
    var ids := DirtyIds(decayed.slots);
    ClearedSlots(decayed, Buffered(ids, host(ids)));
  }

  lemma {:induction false} ClearedForgets(t: Table, ids: seq<nat>, x: nat)
    requires TableOk(t) && x in ids && forall k :: 0 <= k < |ids| ==> ids[k] != 0
    requires forall i :: 0 <= i < TABLE_SIZE && t.slots[i].fragmentId == x ==> t.slots[i].strength == 0
    ensures !Holds(Cleared(t, ids), x)
    decreases |ids|
  {
    var before, id := ids[..|ids| - 1], ids[|ids| - 1];
    assert ids == before + [id];
    ClearKeepsTable(t, before);
    ClearedSlots(t, before);
    hide Occupied;
    if id != x {
      ClearedForgets(t, before, x);
    }
  }

  lemma FadedIsMarked(slots: seq<Entry>, now: nat, x: nat, since: nat)
    requires Fading(Table(slots, 0), x, since, 0) && x != 0 && Age(since, now) > 255
    ensures var d := Decayed(slots, now);
      forall i :: 0 <= i < |d| && d[i].fragmentId == x ==> d[i].dirty && d[i].strength == 0
  {
    assert Age(now, now) == 0;
  }

  /** A faded, old fragment is freed by the next complete cycle. */
  lemma RemForgets(t: Table, now: nat, host: Host, x: nat, since: nat)
    requires |t.slots| == TABLE_SIZE && TableOk(t) && Complete(host) && x != 0
    requires Fading(t, x, since, 0) && Age(since, now) > 255
    ensures !Holds(AfterRem(t, now, host), x)
  {
    FadedIsMarked(t.slots, now, x, since);
    hide DirtyIds, Cleared, TableOk, Fading, Decayed;
    var decayed := t.(slots := Decayed(t.slots, now));
    var ids := DirtyIds(decayed.slots);
    DecayKeepsTable(t, now);
    DirtyIdsExact(decayed.slots);
    assert ids[..|ids|] == ids;
    if x in ids {
      ClearedForgets(decayed, ids, x);
    } else {
      ClearedSlots(decayed, ids);
    }
  }

  /** A strength after this many halvings. */
  function Halved(strength: nat, cycles: nat): nat {
    if cycles == 0 then strength else Halved(strength, cycles - 1) / 2
  }

  /** No byte survives eight halvings. */
  lemma {:induction false} HalvedToNothing(strength: nat, cycles: nat)
    requires strength <= 255
    ensures Halved(strength, cycles) <= if cycles < 8 then [255, 127, 63, 31, 15, 7, 3, 1][cycles] else 0
  {
    if cycles > 0 {
      HalvedToNothing(strength, cycles - 1);
    }
  }

  ghost predicate Unreinforced(packets: seq<Packet>, x: nat) {
    forall i :: 0 <= i < |packets| ==> packets[i].id != x
  }

  lemma IngestFades(c: Cortex, p: Packet, x: nat, since: nat, strength: nat)
    requires |c.table.slots| == TABLE_SIZE && x != 0 && p.id != x && Fading(c.table, x, since, strength)
    requires After(c.ingestCount, 1) != since
    ensures Fading(Ingest(c, p).table, x, since, if After(c.ingestCount, 1) % REM_INTERVAL == 0 then strength / 2 else strength)
  {
    hide Inserted, AfterRem;
    var now := After(c.ingestCount, 1);
    InsertOther(c.table, p.id, p.strength, now, x);
    if now % REM_INTERVAL == 0 {
      RemFades(Inserted(c.table, p.id, p.strength, now), now, p.host, x, since, strength);
    }
  }

  lemma IngestAdmitsNone(c: Cortex, p: Packet, x: nat)
    requires |c.table.slots| == TABLE_SIZE && x != 0 && p.id != x && !Holds(c.table, x)
    ensures !Holds(Ingest(c, p).table, x)
  {
    hide Inserted, AfterRem;
    var now := After(c.ingestCount, 1);
    InsertOther(c.table, p.id, p.strength, now, x);
    RemAdmitsNone(Inserted(c.table, p.id, p.strength, now), now, p.host, x);
  }

  /** The final cycle of a fragment that has faded away and was not seen for more than 255 packets. */
  lemma IngestForgets(c: Cortex, p: Packet, x: nat, since: nat)
    requires TableOk(c.table) && p.strength <= 255 && Complete(p.host)
    requires x != 0 && p.id != x && Fading(c.table, x, since, 0)
    requires var now := After(c.ingestCount, 1); now % REM_INTERVAL == 0 && Age(since, now) > 255
    ensures !Holds(Ingest(c, p).table, x)
  {
    hide Inserted, AfterRem, Occupied;
    var now := After(c.ingestCount, 1);
    InsertOther(c.table, p.id, p.strength, now, x);
    InsertKeepsTable(c.table, p.id, p.strength, now);
    RemForgets(Inserted(c.table, p.id, p.strength, now), now, p.host, x, since);
  }

  /** While it is not reinforced, a fragment just seen loses exactly half its strength in every cycle, or its slot. */
  lemma {:induction false} RunFades(c: Cortex, packets: seq<Packet>, x: nat, strength: nat)
    requires |c.table.slots| == TABLE_SIZE && c.ingestCount < U32 && x != 0 && |packets| < U32
    requires Fading(c.table, x, c.ingestCount, strength) && Unreinforced(packets, x)
    ensures Feed(c, packets).ingestCount == After(c.ingestCount, |packets|)
    ensures Fading(Feed(c, packets).table, x, c.ingestCount, Halved(strength, Cycles(c.ingestCount, |packets|)))
    decreases |packets|
  {
    hide Ingest, Fading;
    if packets != [] {
      hide After;
      var n := |packets| - 1;
      RunFades(c, packets[..n], x, strength);
      NextCount(c.ingestCount, n);
      IngestFades(Feed(c, packets[..n]), packets[n], x, c.ingestCount, Halved(strength, Cycles(c.ingestCount, n)));
    }
  }

  lemma TwentySeventhCycle(start: nat, n: nat)
    requires start < U32 && Cycles(start, n + 1) == 27 && Cycles(start, n) == 26
    ensures n < 300
    ensures var now := After(After(start, n), 1); now % REM_INTERVAL == 0 && Age(start, now) > 255
  {
    CyclesBounds(start, n + 1);
    NextCount(start, n);
  }

  /** A fragment recorded with at most 105 earlier hits starts to fade, even when a cycle runs at once. */
  lemma IngestStartsFading(c: Cortex, p: Packet)
    requires TableOk(c.table) && p.id != 0 && p.strength <= 255
    requires forall i :: 0 <= i < TABLE_SIZE && c.table.slots[i].fragmentId == p.id ==> c.table.slots[i].hitCount <= 105
    ensures Fading(Ingest(c, p).table, p.id, Ingest(c, p).ingestCount, Recorded(c.table, p.id, p.strength))
  {
    hide Inserted, AfterRem, Occupied;
    var now := After(c.ingestCount, 1);
    var t := Inserted(c.table, p.id, p.strength, now);
    InsertStartsFading(c.table, p.id, p.strength, now);
    RemSparesRecent(t, now, p.host, p.id, Recorded(c.table, p.id, p.strength));
  }

  /**
   * Twenty-seven complete cycles without reinforcement forget every fragment of at most 106 hits,
   * whatever else is recorded meanwhile and even when the packet counter wraps.
   */
  lemma {:induction false} UnreinforcedIsForgotten(c: Cortex, packets: seq<Packet>, x: nat, strength: nat)
    requires |c.table.slots| == TABLE_SIZE && TableOk(c.table) && c.ingestCount < U32 && AllProper(packets) && x != 0
    requires Fading(c.table, x, c.ingestCount, strength) && Unreinforced(packets, x)
    requires forall i :: 0 <= i < |packets| ==> Complete(packets[i].host)
    requires strength <= 255 && Cycles(c.ingestCount, |packets|) >= 27
    ensures !Holds(Feed(c, packets).table, x)
    decreases |packets|
  {
    hide Ingest, Fading, TableOk, Complete, Honest, Halved, After, Age, Holds;
    var n := |packets| - 1;
    var before := packets[..n];
    if Cycles(c.ingestCount, n) >= 27 {
      UnreinforcedIsForgotten(c, before, x, strength);
      IngestAdmitsNone(Feed(c, before), packets[n], x);
    } else {
      TwentySeventhCycle(c.ingestCount, n);
      hide Cycles;
      RunFades(c, before, x, strength);
      RunKeepsTable(c, before);
      HalvedToNothing(strength, 26);
      IngestForgets(Feed(c, before), packets[n], x, c.ingestCount);
    }
  }
}
