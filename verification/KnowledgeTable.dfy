/** The cortex's table of 64 knowledge slots: scoring, decay, and forgetting in REM cycles. */
module KnowledgeTable {
  import opened Wrappers

  const TABLE_SIZE: nat := 64
  const REM_INTERVAL: nat := 10
  const DECAY_THRESHOLD: nat := 32

  /** A slot; fragment 0 means free. Widths: 64, 32, 16 and 8 bits. */
  datatype Entry = Entry(fragmentId: nat, lastSeen: nat, hitCount: nat, strength: nat, dirty: bool)

  const FREE: Entry := Entry(0, 0, 0, 0, false)

  const U32: nat := 0x1_0000_0000

  /** The wrapping 32-bit count, so many packets later. */
  function After(count: nat, packets: nat): nat {
    (count + packets) % U32
  }

  /** The wrapping 32-bit difference of two counts. */
  function Age(since: nat, now: nat): nat {
    (now - since) % U32
  }

  function Recency(age: nat): nat {
    if age > 255 then 0 else 255 - age
  }

  /** Strength, resonance and recency weighed 5 : 3 : 2. */
  function Score(e: Entry, now: nat): nat {
    e.strength * 5 + (if e.hitCount < 255 then e.hitCount else 255) * 3 + Recency(Age(e.lastSeen, now)) * 2
  }

  lemma ScoreAtMost2550(e: Entry, now: nat)
    requires e.strength <= 255
    ensures Score(e, now) <= 2550
  {}

  /** The calibration the threshold was chosen by: tenths of the score of entries without hits. */
  lemma ScoreCalibration(id: nat, now: nat)
    ensures Score(Entry(id, now, 0, 32, false), now) / 10 == 67 && Score(Entry(id, now, 0, 16, false), now) / 10 == 59
    ensures Score(Entry(id, now, 0, 8, false), now) / 10 == 55 && Score(Entry(id, now, 0, 0, false), now) / 10 == 51
    ensures Score(Entry(id, now, 0, 0, false), now + 200) / 10 == 11
    ensures forall hits: nat :: Score(Entry(id, now, hits, 255, false), now) == 2550 <==> hits >= 255
  {
    assert Age(now, now) == 0 && Age(now, now + 200) == 200;
  }

  // ----- lookups -----

  /** The first slot with this fragment, or the table size. */
  function FirstWith(slots: seq<Entry>, id: nat): (i: nat)
    ensures i <= |slots|
    ensures i < |slots| ==> slots[i].fragmentId == id
    ensures forall j :: 0 <= j < i ==> slots[j].fragmentId != id
  {
    if slots == [] || slots[0].fragmentId == id then 0 else 1 + FirstWith(slots[1..], id)
  }

  /** The first slot of least score among the first n, over all of them or over those not dirty. */
  function Weakest(slots: seq<Entry>, now: nat, cleanOnly: bool, n: nat): (w: Option<nat>)
    requires n <= |slots|
    ensures w.Some? ==> w.value < n
    ensures !cleanOnly && n > 0 ==> w.Some?
  {
    if n == 0 then None
    else
      var w, e := Weakest(slots, now, cleanOnly, n - 1), slots[n - 1];
      if cleanOnly && e.dirty then w
      else if w.None? || Score(e, now) < Score(slots[w.value], now) then Some(n - 1)
      else w
  }

  /** It has the least score of its candidates, and there is none exactly when every slot is dirty. */
  lemma {:induction false} WeakestIsLeast(slots: seq<Entry>, now: nat, cleanOnly: bool, n: nat)
    requires n <= |slots|
    ensures var w := Weakest(slots, now, cleanOnly, n);
      && (w == None <==> forall j :: 0 <= j < n ==> cleanOnly && slots[j].dirty)
      && (w.Some? ==> (
            && !(cleanOnly && slots[w.value].dirty)
            && forall j :: 0 <= j < n && !(cleanOnly && slots[j].dirty) ==> Score(slots[w.value], now) <= Score(slots[j], now)))
  {
    if n > 0 {
      WeakestIsLeast(slots, now, cleanOnly, n - 1);
    }
  }

  // ----- the operations on values -----

  datatype Table = Table(slots: seq<Entry>, count: nat)

  const EMPTY: Table := Table(seq(64, _ => FREE), 0)

  function Max(a: nat, b: nat): nat {
    if a < b then b else a
  }

  function Victim(slots: seq<Entry>, now: nat): (i: nat)
    requires |slots| == TABLE_SIZE
    ensures i < |slots|
  {
    match Weakest(slots, now, true, TABLE_SIZE)
    case Some(i) => i
    case None => Weakest(slots, now, false, TABLE_SIZE).value
  }

  /** Refresh a known fragment; otherwise take a free slot, or the weakest one when there is none. */
  function Inserted(t: Table, id: nat, strength: nat, now: nat): (r: Table)
    requires |t.slots| == TABLE_SIZE
    ensures |r.slots| == TABLE_SIZE
  {
    if id == 0 then t
    else
      var i := FirstWith(t.slots, id);
      if i < TABLE_SIZE then
        var e := t.slots[i];
        t.(slots := t.slots[i := Entry(id, now, if e.hitCount < 65535 then e.hitCount + 1 else 65535, Max(e.strength, strength), false)])
      else
        var j := FirstWith(t.slots, 0);
        if j < TABLE_SIZE then Table(t.slots[j := Entry(id, now, 0, strength, false)], t.count + 1)
        else t.(slots := t.slots[Victim(t.slots, now) := Entry(id, now, 0, strength, false)])
  }

  /** One entry's decay: fragments of this very tick are spared. */
  function DecayedEntry(e: Entry, now: nat): Entry {
    if e.fragmentId == 0 || e.lastSeen == now then e
    else
      var weaker := e.(strength := e.strength / 2);
      if Score(weaker, now) / 10 < DECAY_THRESHOLD then weaker.(dirty := true) else weaker
  }

  function Decayed(slots: seq<Entry>, now: nat): (r: seq<Entry>)
    ensures |r| == |slots| && forall i :: 0 <= i < |r| ==> r[i] == DecayedEntry(slots[i], now)
  {
    seq(|slots|, i requires 0 <= i < |slots| => DecayedEntry(slots[i], now))
  }

  /** The dirty fragments, in slot order. */
  function DirtyIds(slots: seq<Entry>): (ids: seq<nat>)
    ensures |ids| <= |slots|
  {
    if slots == [] then []
    else
      var e := slots[|slots| - 1];
      DirtyIds(slots[..|slots| - 1]) + if e.dirty && e.fragmentId != 0 then [e.fragmentId] else []
  }

  /** Unmark a processed fragment, and free its slot if its strength is gone. */
  function ClearedOne(t: Table, id: nat): (r: Table)
    ensures |r.slots| == |t.slots|
  {
    var i := FirstWith(t.slots, id);
    if i == |t.slots| then t
    else if t.slots[i].strength == 0 then
      Table(t.slots[i := Entry(0, 0, 0, 0, false)], if t.count > 0 then t.count - 1 else 0)
    else t.(slots := t.slots[i := t.slots[i].(dirty := false)])
  }

  function Cleared(t: Table, ids: seq<nat>): (r: Table)
    ensures |r.slots| == |t.slots|
  {
    if ids == [] then t else ClearedOne(Cleared(t, ids[..|ids| - 1]), ids[|ids| - 1])
  }

  /** How many of the ids sent to it the host says it processed. More than the buffer holds traps. */
  type Host = f: seq<nat> -> nat | forall ids :: |ids| <= TABLE_SIZE ==> f(ids) <= TABLE_SIZE witness AllProcessed

  function AllProcessed(ids: seq<nat>): nat {
    |ids|
  }

  function Zeros(n: nat): (zeros: seq<nat>)
    ensures |zeros| == n && forall i :: 0 <= i < n ==> zeros[i] == 0
  {
    seq(n, _ => 0)
  }

  /** The first n ids of the buffer, which is padded with zeros. */
  function Buffered(ids: seq<nat>, n: nat): (buf: seq<nat>)
    ensures |buf| == n
  {
    if n <= |ids| then ids[..n] else ids + Zeros(n - |ids|)
  }

  function AfterRem(t: Table, now: nat, host: Host): (r: Table)
    ensures |r.slots| == |t.slots|
  {
    var decayed := t.(slots := Decayed(t.slots, now));
    var ids := DirtyIds(decayed.slots);
    if ids == [] then decayed else Cleared(decayed, Buffered(ids, host(ids)))
  }

  // ----- runs -----

  /** The state of the module: the table and the wrapping 32-bit count of packets. */
  datatype Cortex = Cortex(table: Table, ingestCount: nat)

  /** A packet's fragment and strength, and how the host answers should a cycle follow it. */
  datatype Packet = Packet(id: nat, strength: nat, host: Host)

  /** One packet: count it, record its fragment, and run a REM cycle on every tenth. */
  function Ingest(c: Cortex, p: Packet): (r: Cortex)
    requires |c.table.slots| == TABLE_SIZE
    ensures |r.table.slots| == TABLE_SIZE && r.ingestCount == After(c.ingestCount, 1)
  {
    var now := After(c.ingestCount, 1);
    var t := Inserted(c.table, p.id, p.strength, now);
    Cortex(if now % REM_INTERVAL == 0 then AfterRem(t, now, p.host) else t, now)
  }

  function Feed(c: Cortex, packets: seq<Packet>): (r: Cortex)
    requires |c.table.slots| == TABLE_SIZE
    ensures |r.table.slots| == TABLE_SIZE
  {
    if packets == [] then c else Ingest(Feed(c, packets[..|packets| - 1]), packets[|packets| - 1])
  }

  lemma {:induction false} DirtyIdsPrefix(slots: seq<Entry>, n: nat)
    requires n <= |slots|
    ensures DirtyIds(slots[..n]) <= DirtyIds(slots)
    decreases |slots|
  {
    if n < |slots| {
      assert slots[..|slots| - 1][..n] == slots[..n];
      DirtyIdsPrefix(slots[..|slots| - 1], n);
    } else {
      assert slots[..n] == slots;
    }
  }

  // ----- the state in place -----

  lemma FirstWithIs(slots: seq<Entry>, id: nat, i: nat)
    requires i <= |slots| && (i < |slots| ==> slots[i].fragmentId == id)
    requires forall j :: 0 <= j < i ==> slots[j].fragmentId != id
    ensures FirstWith(slots, id) == i
  {}

  class KnowledgeTable {
    const slots: array<Entry>
    var count: nat

    ghost predicate Valid() {
      slots.Length == TABLE_SIZE
    }

    ghost function Value(): (t: Table)
      requires Valid()
      reads this, slots
    {
      Table(slots[..], count)
    }

    constructor ()
      ensures Valid() && fresh(slots) && Value() == EMPTY
    {
      slots := new Entry[TABLE_SIZE](_ => FREE);
      count := 0;
    }

    /** The first slot of the fragment, if it has one; of fragment 0, the first free slot. */
    method FindIndex(id: nat) returns (r: Option<nat>)
      requires Valid()
      ensures var i := FirstWith(slots[..], id); r == if i < TABLE_SIZE then Some(i) else None
    {
      var i := 0;
      while i < TABLE_SIZE
        invariant i <= TABLE_SIZE
        invariant forall j :: 0 <= j < i ==> slots[j].fragmentId != id
      {
        if slots[i].fragmentId == id {
          FirstWithIs(slots[..], id, i);
          return Some(i);
        }
        i := i + 1;
      }
      FirstWithIs(slots[..], id, i);
      return None;
    }

    method FindWeakest(now: nat, cleanOnly: bool) returns (w: Option<nat>)
      requires Valid()
      ensures w == Weakest(slots[..], now, cleanOnly, TABLE_SIZE)
    {
      w := None;
      for i := 0 to TABLE_SIZE
        invariant w == Weakest(slots[..], now, cleanOnly, i)
      {
        if !(cleanOnly && slots[i].dirty) && (w.None? || Score(slots[i], now) < Score(slots[w.value], now)) {
          w := Some(i);
        }
      }
    }

    method InsertOrUpdate(id: nat, strength: nat, now: nat)
      requires Valid()
      modifies `count, slots
      ensures Value() == Inserted(old(Value()), id, strength, now)
    {
      if id == 0 {
        return;
      }
      var known := FindIndex(id);
      if known.Some? {
        var e := slots[known.value];
        slots[known.value] := Entry(id, now, if e.hitCount < 65535 then e.hitCount + 1 else 65535, Max(e.strength, strength), false);
        return;
      }
      var free := FindIndex(0);
      if free.Some? {
        slots[free.value] := Entry(id, now, 0, strength, false);
        count := count + 1;
        return;
      }
      var w := FindWeakest(now, true);
      if w.None? {
        w := FindWeakest(now, false);
      }
      slots[w.value] := Entry(id, now, 0, strength, false);
    }

    method Decay(now: nat)
      requires Valid()
      modifies slots
      ensures slots[..] == Decayed(old(slots[..]), now)
    {
      for i := 0 to TABLE_SIZE
        invariant forall j :: 0 <= j < i ==> slots[j] == DecayedEntry(old(slots[j]), now)
        invariant forall j :: i <= j < TABLE_SIZE ==> slots[j] == old(slots[j])
      {
        var e := slots[i];
        if e.fragmentId != 0 && e.lastSeen != now {
          e := e.(strength := e.strength / 2);
          if Score(e, now) / 10 < DECAY_THRESHOLD {
            e := e.(dirty := true);
          }
          slots[i] := e;
        }
      }
    }

    /** Write the dirty fragments to the buffer, as many as fit. */
    method CollectDirty(buf: array<nat>) returns (written: nat)
      requires Valid()
      modifies buf
      ensures var ids := DirtyIds(slots[..]);
        written == (if |ids| < buf.Length then |ids| else buf.Length) && buf[..written] == ids[..written]
      ensures buf[written..] == old(buf[written..])
    {
      written := 0;
      var i := 0;
      while i < TABLE_SIZE
        invariant i <= TABLE_SIZE && written <= buf.Length
        invariant buf[..written] == DirtyIds(slots[..i])
        invariant buf[written..] == old(buf[written..])
      {
        DirtyIdsPrefix(slots[..], i);
        assert slots[..i + 1][..i] == slots[..i];
        if slots[i].dirty && slots[i].fragmentId != 0 {
          if written < buf.Length {
            buf[written] := slots[i].fragmentId;
            written := written + 1;
          } else {
            break;
          }
        }
        i := i + 1;
      }
      assert DirtyIds(slots[..i]) <= DirtyIds(slots[..]) by { DirtyIdsPrefix(slots[..], i); }
      assert buf[..written] == DirtyIds(slots[..])[..written];
      if i == TABLE_SIZE {
        assert slots[..i] == slots[..];
      } else {
        assert written == buf.Length;
      }
    }

    /** Unmark the processed fragments, freeing those without strength. */
    method ClearDirty(ids: seq<nat>)
      requires Valid()
      modifies `count, slots
      ensures Value() == Cleared(old(Value()), ids)
    {
      for k := 0 to |ids|
        invariant Value() == Cleared(old(Value()), ids[..k])
      {
        assert ids[..k + 1][..k] == ids[..k];
        var known := FindIndex(ids[k]);
        if known.Some? {
          var i := known.value;
          slots[i] := slots[i].(dirty := false);
          if slots[i].strength == 0 {
            slots[i] := slots[i].(fragmentId := 0, hitCount := 0, lastSeen := 0);
            count := if count > 0 then count - 1 else 0;
          }
        }
      }
      assert ids[..|ids|] == ids;
    }
  }

  /** The module's statics. */
  class CortexModule {
    const table: KnowledgeTable
    var ingestCount: nat

    ghost predicate Valid() {
      table.Valid()
    }

    ghost function State(): (c: Cortex)
      requires Valid()
      reads this, table, table.slots
    {
      Cortex(table.Value(), ingestCount)
    }

    constructor ()
      ensures Valid() && fresh(table) && fresh(table.slots) && State() == Cortex(EMPTY, 0)
    {
      table := new KnowledgeTable();
      ingestCount := 0;
    }

    method RemCycle(host: Host) returns (processed: nat)
      requires Valid()
      modifies table, table.slots
      ensures State() == Cortex(AfterRem(old(State()).table, ingestCount, host), ingestCount)
      ensures var ids := DirtyIds(Decayed(old(State()).table.slots, ingestCount)); processed == if ids == [] then 0 else host(ids)
    {
      hide Cleared, Decayed;
      table.Decay(ingestCount);
      var buf := new nat[TABLE_SIZE](_ => 0);
      var dirtyCount := table.CollectDirty(buf);
      ghost var ids := DirtyIds(table.slots[..]);
      assert buf[..dirtyCount] == ids;
      assert buf[dirtyCount..] == Zeros(TABLE_SIZE - dirtyCount);
      if dirtyCount > 0 {
        processed := host(buf[..dirtyCount]);
        assert buf[..] == buf[..dirtyCount] + buf[dirtyCount..];
        assert buf[..processed] == Buffered(ids, processed);
        table.ClearDirty(buf[..processed]);
      } else {
        processed := 0;
      }
    }

    method IngestPacket(p: Packet)
      requires Valid()
      modifies this, table, table.slots
      ensures State() == Ingest(old(State()), p)
    {
      ingestCount := After(ingestCount, 1);
      table.InsertOrUpdate(p.id, p.strength, ingestCount);
      if ingestCount % REM_INTERVAL == 0 {
        var _ := RemCycle(p.host);
      }
    }
  }
}
