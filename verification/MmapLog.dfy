/** The memory-mapped log: frames of length, payload and hash, and the scan that finds where they end. */
module MmapLog {
  import opened Wrappers
  import opened WalRecord

  /** Ten megabytes. */
  const WAL_SIZE: nat := 10485760

  type HashFn = seq<byte> -> Hash

  type Payload = seq<byte>

  function FrameSize(p: Payload): nat {
    4 + |p| + 32
  }

  /** Length as a 32-bit little-endian integer, payload, hash of the payload. */
  function Frame(blake: HashFn, p: Payload): (f: seq<byte>)
    ensures |f| == FrameSize(p)
  {
    ToLittleEndian(|p| % 0x1_0000_0000, 4) + p + blake(p)
  }

  function Frames(blake: HashFn, ps: seq<Payload>): seq<byte> {
    if ps == [] then [] else Frame(blake, ps[0]) + Frames(blake, ps[1..])
  }

  // ----- the scan -----

  function SizeAt(bytes: seq<byte>, cursor: nat): nat
    requires cursor + 4 <= |bytes|
  {
    FromLittleEndian(bytes[cursor..cursor + 4])
  }

  /** A whole, non-empty frame with a matching hash starts at the cursor. */
  predicate IntactAt(blake: HashFn, bytes: seq<byte>, cursor: nat) {
    && cursor + 4 <= |bytes|
    && var size := SizeAt(bytes, cursor);
       var start := cursor + 4;
       && size != 0 && start + size + 32 <= |bytes|
       && blake(bytes[start..start + size]) == bytes[start + size..start + size + 32]
  }

  function Scan(blake: HashFn, bytes: seq<byte>, cursor: nat): (c: nat)
    ensures c >= cursor && (cursor <= |bytes| ==> c <= |bytes|)
    decreases |bytes| - cursor
  {
    if IntactAt(blake, bytes, cursor) then Scan(blake, bytes, cursor + 4 + SizeAt(bytes, cursor) + 32) else cursor
  }

  /** The payloads the scan passes over. */
  function Scanned(blake: HashFn, bytes: seq<byte>, cursor: nat): seq<Payload>
    decreases |bytes| - cursor
  {
    if IntactAt(blake, bytes, cursor) then
      var size := SizeAt(bytes, cursor);
      [bytes[cursor + 4..cursor + 4 + size]] + Scanned(blake, bytes, cursor + 4 + size + 32)
    else []
  }

  // ----- the buffer -----

  /** The mapped bytes and where the next frame goes. */
  datatype Memory = Memory(bytes: seq<byte>, cursor: nat)

  /** The bytes with a frame written over them. */
  function Written(bytes: seq<byte>, at: nat, frame: seq<byte>): (w: seq<byte>)
    requires at + |frame| <= |bytes|
    ensures |w| == |bytes|
  {
    bytes[..at] + frame + bytes[at + |frame|..]
  }

  /** One frame at the cursor, or nothing when it does not fit. */
  function Appended(blake: HashFn, m: Memory, p: Payload): (m': Memory)
    ensures |m'.bytes| == |m.bytes| && (m.cursor <= |m.bytes| ==> m'.cursor <= |m.bytes|)
  {
    if m.cursor + FrameSize(p) <= |m.bytes| then Memory(Written(m.bytes, m.cursor, Frame(blake, p)), m.cursor + FrameSize(p)) else m
  }

  /** A file is cut or filled up with zeros to the fixed size. */
  function Resized(file: seq<byte>): (bytes: seq<byte>)
    ensures |bytes| == WAL_SIZE
    ensures forall i :: 0 <= i < WAL_SIZE ==> bytes[i] == if i < |file| then file[i] else 0
  {
    if |file| >= WAL_SIZE then file[..WAL_SIZE] else file + Zeros(WAL_SIZE - |file|)
  }

  /** Memory of any content, recovered. */
  function Recovered(blake: HashFn, bytes: seq<byte>): (m: Memory)
    ensures m.cursor <= |bytes|
  {
    Memory(bytes, Scan(blake, bytes, 0))
  }

  class WalBuffer {
    const blake: HashFn
    const mmap: array<byte>
    var cursor: nat

    ghost predicate Valid()
      reads this
    {
      mmap.Length == WAL_SIZE && cursor <= WAL_SIZE
    }

    ghost function Contents(): Memory
      reads this, mmap
    {
      Memory(mmap[..], cursor)
    }

    /** Map the file and recover the cursor. */
    constructor (blake: HashFn, file: seq<byte>)
      ensures Valid() && fresh(mmap) && this.blake == blake && Contents() == Recovered(blake, Resized(file))
    {
      var bytes := Resized(file);
      var memory := new byte[WAL_SIZE](i requires 0 <= i < WAL_SIZE => bytes[i]);
      assert memory[..] == bytes;
      var at := RecoverCursor(blake, memory);
      this.blake, mmap, cursor := blake, memory, at;
    }

    /** Walk over intact frames from the start of the memory. */
    static method RecoverCursor(blake: HashFn, mmap: array<byte>) returns (cursor: nat)
      ensures cursor == Scan(blake, mmap[..], 0)
    {
      cursor := 0;
      var len := mmap.Length;
      ghost var bytes := mmap[..];
      while cursor + 4 <= len
        invariant cursor <= len == |bytes| && mmap[..] == bytes
        invariant Scan(blake, bytes, cursor) == Scan(blake, bytes, 0)
        decreases len - cursor
      {
        assert mmap[cursor..cursor + 4] == bytes[cursor..cursor + 4];
        var packetSize := FromLittleEndian(mmap[cursor..cursor + 4]);
        if packetSize == 0 || cursor + 4 + packetSize + 32 > len {
          break;
        }
        var dataStart := cursor + 4;
        var dataEnd := dataStart + packetSize;
        var hashEnd := dataEnd + 32;
        assert mmap[dataStart..dataEnd] == bytes[dataStart..dataEnd] && mmap[dataEnd..hashEnd] == bytes[dataEnd..hashEnd];
        if blake(mmap[dataStart..dataEnd]) != mmap[dataEnd..hashEnd] {
          break;
        }
        cursor := hashEnd;
      }
    }

    /** Write one frame at the cursor, or refuse when it does not fit. */
    method AppendDelta(payload: Payload) returns (ok: bool)
      requires Valid()
      modifies this, mmap
      ensures Valid()
      ensures ok <==> old(cursor) + FrameSize(payload) <= WAL_SIZE
      ensures Contents() == Appended(blake, old(Contents()), payload)
    {
      hide Frame;
      if cursor + FrameSize(payload) > mmap.Length {
        return false;
      }
      WriteFrame(blake, mmap, cursor, payload);
      cursor := cursor + FrameSize(payload);
      ok := true;
    }

    /** Length, payload and hash, one after the other. */
    static method WriteFrame(blake: HashFn, mmap: array<byte>, at: nat, payload: Payload)
      requires at + FrameSize(payload) <= mmap.Length
      modifies mmap
      ensures mmap[..] == Written(old(mmap[..]), at, Frame(blake, payload))
    {
      var sizeBytes := ToLittleEndian(|payload| % 0x1_0000_0000, 4);
      CopyInto(mmap, at, sizeBytes);
      CopyInto(mmap, at + 4, payload);
      CopyInto(mmap, at + 4 + |payload|, blake(payload));
    }

    /** Wipe the memory. */
    method Reset()
      requires Valid()
      modifies this, mmap
      ensures Valid() && Contents() == Memory(Zeros(WAL_SIZE), 0)
    {
      cursor := 0;
      for i := 0 to mmap.Length
        invariant forall j :: 0 <= j < i ==> mmap[j] == 0
        modifies mmap
      {
        mmap[i] := 0;
      }
    }
  }

  // ----- runs of appends -----

  function AppendAll(blake: HashFn, m: Memory, ps: seq<Payload>): Memory
    decreases |ps|
  {
    if ps == [] then m else AppendAll(blake, Appended(blake, m, ps[0]), ps[1..])
  }

  /** The payloads whose frames still fit when they are appended one after the other. */
  function Fitting(ps: seq<Payload>, room: nat): (fs: seq<Payload>)
    ensures NoneEmpty(ps) ==> NoneEmpty(fs)
    decreases |ps|
  {
    if ps == [] then []
    else if FrameSize(ps[0]) <= room then [ps[0]] + Fitting(ps[1..], room - FrameSize(ps[0]))
    else Fitting(ps[1..], room)
  }

  lemma WrittenTwice(bytes: seq<byte>, at: nat, a: seq<byte>, b: seq<byte>)
    requires at + |a| + |b| <= |bytes|
    ensures Written(Written(bytes, at, a), at + |a|, b) == Written(bytes, at, a + b)
  {}

  lemma FramesCons(blake: HashFn, p: Payload, rest: seq<Payload>)
    ensures Frames(blake, [p] + rest) == Frame(blake, p) + Frames(blake, rest)
  {
    assert ([p] + rest)[1..] == rest;
  }

  lemma NothingWritten(blake: HashFn, bytes: seq<byte>, at: nat)
    requires at <= |bytes|
    ensures Frames(blake, []) == [] && Written(bytes, at, []) == bytes
  {}

  /** A run of appends writes the frames that fit, one behind the other. */
  lemma {:induction false} AppendAllWrites(blake: HashFn, m: Memory, ps: seq<Payload>)
    requires m.cursor <= |m.bytes|
    ensures var fs := Frames(blake, Fitting(ps, |m.bytes| - m.cursor));
      && m.cursor + |fs| <= |m.bytes|
      && AppendAll(blake, m, ps) == Memory(Written(m.bytes, m.cursor, fs), m.cursor + |fs|)
    decreases |ps|
  {
    hide Frame, Frames, Written, NoneEmpty;
    if ps == [] {
      NothingWritten(blake, m.bytes, m.cursor);
    } else {
      var m' := Appended(blake, m, ps[0]);
      AppendAllWrites(blake, m', ps[1..]);
      var rest := Fitting(ps[1..], |m.bytes| - m'.cursor);
      if m.cursor + FrameSize(ps[0]) <= |m.bytes| {
        FramesCons(blake, ps[0], rest);
        WrittenTwice(m.bytes, m.cursor, Frame(blake, ps[0]), Frames(blake, rest));
      } else {
        assert m' == m && Fitting(ps, |m.bytes| - m.cursor) == rest;
      }
    }
  }

  // ----- what the scan finds -----

  /** The bytes part occurs at a position. */
  predicate HasAt(bytes: seq<byte>, at: nat, part: seq<byte>) {
    at + |part| <= |bytes| && bytes[at..at + |part|] == part
  }

  lemma HasBoth(bytes: seq<byte>, at: nat, a: seq<byte>, b: seq<byte>)
    requires HasAt(bytes, at, a + b)
    ensures HasAt(bytes, at, a) && HasAt(bytes, at + |a|, b)
  {
    assert bytes[at..at + |a|] == (a + b)[..|a|];
    assert bytes[at + |a|..at + |a| + |b|] == (a + b)[|a|..];
  }

  /** A frame at the cursor: intact exactly when it is not empty, and then the scan steps over it. */
  lemma FrameAt(blake: HashFn, bytes: seq<byte>, cursor: nat, p: Payload)
    requires |bytes| < 0x1_0000_0000 && HasAt(bytes, cursor, Frame(blake, p))
    ensures IntactAt(blake, bytes, cursor) <==> p != []
    ensures p != [] ==>
      && Scan(blake, bytes, cursor) == Scan(blake, bytes, cursor + FrameSize(p))
      && Scanned(blake, bytes, cursor) == [p] + Scanned(blake, bytes, cursor + FrameSize(p))
  {
    hide Pow256, ToLittleEndian, FromLittleEndian;
    var size := ToLittleEndian(|p| % 0x1_0000_0000, 4);
    assert Frame(blake, p) == size + (p + blake(p));
    HasBoth(bytes, cursor, size, p + blake(p));
    HasBoth(bytes, cursor + 4, p, blake(p));
    FourBytes();
    LittleEndianRoundTrip(|p|, 4);
    assert SizeAt(bytes, cursor) == |p|;
  }

  lemma ZerosStop(blake: HashFn, bytes: seq<byte>, cursor: nat)
    requires cursor <= |bytes| && forall i :: cursor <= i < |bytes| ==> bytes[i] == 0
    ensures !IntactAt(blake, bytes, cursor)
  {
    if cursor + 4 <= |bytes| {
      assert bytes[cursor..cursor + 4] == [0, 0, 0, 0];
      assert FromLittleEndian([0, 0, 0, 0]) == 0 by {
        assert [0, 0, 0, 0 as byte][1..] == [0, 0, 0] && [0, 0, 0 as byte][1..] == [0, 0] && [0, 0 as byte][1..] == [0];
      }
    }
  }

  /** The payloads before the first empty one. */
  function UntilEmpty(ps: seq<Payload>): seq<Payload> {
    if ps == [] || ps[0] == [] then [] else [ps[0]] + UntilEmpty(ps[1..])
  }

  lemma {:induction false} FramesOfPrefix(blake: HashFn, ps: seq<Payload>) returns (rest: seq<Payload>)
    ensures ps == UntilEmpty(ps) + rest && (rest == [] || rest[0] == [])
    ensures Frames(blake, ps) == Frames(blake, UntilEmpty(ps)) + Frames(blake, rest)
    ensures NoneEmpty(UntilEmpty(ps))
    ensures rest == [] <==> NoneEmpty(ps)
    decreases |ps|
  {
    hide Frame;
    if ps == [] || ps[0] == [] {
      rest := ps;
    } else {
      rest := FramesOfPrefix(blake, ps[1..]);
      assert UntilEmpty(ps)[1..] == UntilEmpty(ps[1..]);
      assert ps == [ps[0]] + ps[1..];
      assert Frame(blake, ps[0]) + (Frames(blake, UntilEmpty(ps[1..])) + Frames(blake, rest)) ==
             Frame(blake, ps[0]) + Frames(blake, UntilEmpty(ps[1..])) + Frames(blake, rest);
    }
  }

  predicate NoneEmpty(ps: seq<Payload>) {
    forall i :: 0 <= i < |ps| ==> ps[i] != []
  }

  /** The scan passes over the frames of non-empty payloads, whatever follows them. */
  lemma {:induction false} ScanPasses(blake: HashFn, bytes: seq<byte>, cursor: nat, ps: seq<Payload>)
    requires NoneEmpty(ps) && |bytes| < 0x1_0000_0000 && HasAt(bytes, cursor, Frames(blake, ps))
    ensures Scan(blake, bytes, cursor) == Scan(blake, bytes, cursor + |Frames(blake, ps)|)
    ensures Scanned(blake, bytes, cursor) == ps + Scanned(blake, bytes, cursor + |Frames(blake, ps)|)
    decreases |ps|
  {
    hide Frame, HasAt, Scan, Scanned, IntactAt;
    var end := cursor + |Frames(blake, ps)|;
    var tail := Scanned(blake, bytes, end);
    if ps == [] {
      assert end == cursor && ps + tail == tail;
    } else {
      var p, rest := ps[0], ps[1..];
      HasBoth(bytes, cursor, Frame(blake, p), Frames(blake, rest));
      FrameAt(blake, bytes, cursor, p);
      ScanPasses(blake, bytes, cursor + FrameSize(p), rest);
      assert end == cursor + FrameSize(p) + |Frames(blake, rest)|;
      assert ps + tail == [p] + (rest + tail);
    }
  }

  lemma FramesInZeros(blake: HashFn, bytes: seq<byte>, ps: seq<Payload>)
    requires |Frames(blake, ps)| <= |bytes| == WAL_SIZE
    requires bytes == Frames(blake, ps) + Zeros(WAL_SIZE - |Frames(blake, ps)|)
    ensures Scan(blake, bytes, 0) == |Frames(blake, UntilEmpty(ps))|
    ensures Scanned(blake, bytes, 0) == UntilEmpty(ps)
    ensures Scan(blake, bytes, 0) == |Frames(blake, ps)| <==> NoneEmpty(ps)
    ensures Scanned(blake, bytes, 0) == ps <==> NoneEmpty(ps)
  {
    hide Frame, IntactAt, Scan, Scanned, HasAt, Zeros;
    var rest := FramesOfPrefix(blake, ps);
    var fs, zeros := Frames(blake, UntilEmpty(ps)), Zeros(WAL_SIZE - |Frames(blake, ps)|);
    assert bytes == fs + (Frames(blake, rest) + zeros);
    HasWhole(bytes);
    HasBoth(bytes, 0, fs, Frames(blake, rest) + zeros);
    ScanPasses(blake, bytes, 0, UntilEmpty(ps));
    if rest == [] {
      ZerosStop(blake, bytes, |fs|);
    } else {
      EmptyFrameStops(blake, bytes, |fs|, rest, zeros);
    }
    ScanStops(blake, bytes, |fs|);
    assert UntilEmpty(ps) + [] == UntilEmpty(ps);
  }

  /** A file of the fixed size is mapped as it is. */
  lemma MappedUnchanged(file: seq<byte>)
    requires |file| == WAL_SIZE
    ensures Resized(file) == file
  {}

  /** A new file is mapped as zeros. */
  lemma MappedZeros()
    ensures Resized([]) == Zeros(WAL_SIZE)
  {}

  /**
   On a new file, after any appends: mapping the file again finds exactly the payloads that fitted before the first
   empty one, and so the session's cursor and all its payloads if and only if none of them was empty.
   */
  lemma RecoveryFindsAllIffNoneEmpty(blake: HashFn, ps: seq<Payload>)
    ensures var m, fs := AppendAll(blake, Recovered(blake, Resized([])), ps), Fitting(ps, WAL_SIZE);
      var again := Recovered(blake, Resized(m.bytes));
      && Scanned(blake, again.bytes, 0) == UntilEmpty(fs)
      && (Scanned(blake, again.bytes, 0) == fs <==> NoneEmpty(fs))
      && (again == m <==> NoneEmpty(fs))
  {
    hide Frame, Frames, Scan, Scanned, AppendAll, Fitting, IntactAt;
    var start := Memory(Zeros(WAL_SIZE), 0);
    MappedZeros();
    ZerosStop(blake, start.bytes, 0);
    ScanStops(blake, start.bytes, 0);
    var m, fs := AppendAll(blake, start, ps), Fitting(ps, WAL_SIZE);
    AppendAllWrites(blake, start, ps);
    assert m.bytes == Frames(blake, fs) + Zeros(WAL_SIZE - |Frames(blake, fs)|);
    MappedUnchanged(m.bytes);
    FramesInZeros(blake, m.bytes, fs);
  }

  lemma HasWhole(bytes: seq<byte>)
    ensures HasAt(bytes, 0, bytes)
  {}

  lemma EmptyFrameStops(blake: HashFn, bytes: seq<byte>, at: nat, rest: seq<Payload>, zeros: seq<byte>)
    requires rest != [] && rest[0] == [] && |bytes| < 0x1_0000_0000 && HasAt(bytes, at, Frames(blake, rest) + zeros)
    ensures !IntactAt(blake, bytes, at) && |Frames(blake, rest)| > 0
  {
    hide Frame, IntactAt, Scan, Scanned, HasAt;
    var first, more := Frame(blake, []), Frames(blake, rest[1..]) + zeros;
    assert Frames(blake, rest) + zeros == first + more;
    HasBoth(bytes, at, first, more);
    FrameAt(blake, bytes, at, []);
  }

  lemma ScanStops(blake: HashFn, bytes: seq<byte>, cursor: nat)
    ensures Scan(blake, bytes, cursor) == cursor <==> !IntactAt(blake, bytes, cursor)
    ensures Scanned(blake, bytes, cursor) == [] <==> !IntactAt(blake, bytes, cursor)
  {}

  /** When only the payload or hash bytes of the last frame are damaged, and the hash notices, the scan ends before it. */
  lemma TornLastFrame(blake: HashFn, bytes: seq<byte>, ps: seq<Payload>, damaged: Payload, damagedHash: Hash)
    requires NoneEmpty(ps) && |bytes| < 0x1_0000_0000 && |damaged| < 0x1_0000_0000 && blake(damaged) != damagedHash
    requires var at := |Frames(blake, ps)|;
      && HasAt(bytes, 0, Frames(blake, ps)) && HasAt(bytes, at, ToLittleEndian(|damaged|, 4))
      && HasAt(bytes, at + 4, damaged) && HasAt(bytes, at + 4 + |damaged|, damagedHash)
    ensures Scan(blake, bytes, 0) == |Frames(blake, ps)| && Scanned(blake, bytes, 0) == ps
  {
    hide Scan, Scanned, Frames, HasAt, IntactAt, ToLittleEndian;
    var at := |Frames(blake, ps)|;
    NotIntact(blake, bytes, at, damaged, damagedHash);
    ScanPasses(blake, bytes, 0, ps);
    ScanStops(blake, bytes, at);
    assert ps + [] == ps;
  }

  lemma SizeRead(bytes: seq<byte>, at: nat, n: nat)
    requires n < 0x1_0000_0000 && HasAt(bytes, at, ToLittleEndian(n, 4))
    ensures at + 4 <= |bytes| && SizeAt(bytes, at) == n
  {
    hide Pow256, ToLittleEndian, FromLittleEndian;
    FourBytes();
    LittleEndianRoundTrip(n, 4);
  }

  lemma NotIntact(blake: HashFn, bytes: seq<byte>, at: nat, damaged: Payload, damagedHash: Hash)
    requires |damaged| < 0x1_0000_0000 && blake(damaged) != damagedHash
    requires HasAt(bytes, at, ToLittleEndian(|damaged|, 4)) && HasAt(bytes, at + 4, damaged) && HasAt(bytes, at + 4 + |damaged|, damagedHash)
    ensures !IntactAt(blake, bytes, at)
  {
    hide ToLittleEndian, SizeAt;
    SizeRead(bytes, at, |damaged|);
    assert bytes[at + 4..at + 4 + |damaged|] == damaged;
    assert bytes[at + 4 + |damaged|..at + 4 + |damaged| + 32] == damagedHash;
  }

  // ----- appending to a recovered buffer -----

  lemma SamePrefixSameSlice(a: seq<byte>, b: seq<byte>, c: nat, from: nat, to: nat)
    requires from <= to <= c <= |a| == |b| && a[..c] == b[..c]
    ensures a[from..to] == b[from..to]
  {
    assert a[from..to] == a[..c][from..to];
    assert b[from..to] == b[..c][from..to];
  }

  lemma SamePrefixSameFrame(blake: HashFn, bytes: seq<byte>, other: seq<byte>, c: nat, cursor: nat)
    requires |bytes| == |other| && c <= |bytes| && IntactAt(blake, bytes, cursor) && cursor + 4 + SizeAt(bytes, cursor) + 32 <= c
    requires other[..c] == bytes[..c]
    ensures IntactAt(blake, other, cursor) && SizeAt(other, cursor) == SizeAt(bytes, cursor)
    ensures other[cursor + 4..cursor + 4 + SizeAt(bytes, cursor)] == bytes[cursor + 4..cursor + 4 + SizeAt(bytes, cursor)]
  {
    var size := SizeAt(bytes, cursor);
    SamePrefixSameSlice(bytes, other, c, cursor, cursor + 4);
    SamePrefixSameSlice(bytes, other, c, cursor + 4, cursor + 4 + size);
    SamePrefixSameSlice(bytes, other, c, cursor + 4 + size, cursor + 4 + size + 32);
  }

  /** Where the frame at the cursor ends. */
  function NextFrame(bytes: seq<byte>, cursor: nat): nat
    requires cursor + 4 <= |bytes|
  {
    cursor + 4 + SizeAt(bytes, cursor) + 32
  }

  lemma ScanSteps(blake: HashFn, bytes: seq<byte>, cursor: nat)
    requires IntactAt(blake, bytes, cursor)
    ensures cursor + 4 <= |bytes| && cursor < NextFrame(bytes, cursor) <= |bytes|
    ensures Scan(blake, bytes, cursor) == Scan(blake, bytes, NextFrame(bytes, cursor))
    ensures Scanned(blake, bytes, cursor) ==
      [bytes[cursor + 4..NextFrame(bytes, cursor) - 32]] + Scanned(blake, bytes, NextFrame(bytes, cursor))
  {}

  /** The scan depends only on the bytes it passes over and on what stops it. */
  lemma {:induction false} SamePrefixSameScan(blake: HashFn, bytes: seq<byte>, other: seq<byte>, cursor: nat)
    requires |bytes| == |other| && cursor <= |bytes|
    requires other[..Scan(blake, bytes, cursor)] == bytes[..Scan(blake, bytes, cursor)]
    ensures var c := Scan(blake, bytes, cursor);
      && Scan(blake, other, cursor) == Scan(blake, other, c)
      && Scanned(blake, other, cursor) == Scanned(blake, bytes, cursor) + Scanned(blake, other, c)
    decreases |bytes| - cursor
  {
    hide IntactAt, SizeAt, Scan, Scanned;
    ScanStops(blake, bytes, cursor);
    if IntactAt(blake, bytes, cursor) {
      ScanSteps(blake, bytes, cursor);
      SamePrefixSameFrame(blake, bytes, other, Scan(blake, bytes, cursor), cursor);
      ScanSteps(blake, other, cursor);
      SamePrefixSameScan(blake, bytes, other, NextFrame(bytes, cursor));
    }
  }

  lemma SameTailSameSlice(a: seq<byte>, b: seq<byte>, e: nat, from: nat, to: nat)
    requires e <= from <= to <= |a| == |b| && a[e..] == b[e..]
    ensures a[from..to] == b[from..to]
  {
    forall i | from <= i < to
      ensures a[i] == b[i]
    {
      assert a[i] == a[e..][i - e] && b[i] == b[e..][i - e];
    }
  }

  lemma SameTailSameFrame(blake: HashFn, bytes: seq<byte>, other: seq<byte>, e: nat, cursor: nat)
    requires e <= cursor <= |bytes| == |other| && bytes[e..] == other[e..]
    ensures IntactAt(blake, bytes, cursor) == IntactAt(blake, other, cursor)
    ensures IntactAt(blake, bytes, cursor) ==>
      var size := SizeAt(bytes, cursor);
      size == SizeAt(other, cursor) && bytes[cursor + 4..cursor + 4 + size] == other[cursor + 4..cursor + 4 + size]
  {
    if cursor + 4 <= |bytes| {
      SameTailSameSlice(bytes, other, e, cursor, cursor + 4);
      var size := SizeAt(bytes, cursor);
      var start := cursor + 4;
      if start + size + 32 <= |bytes| {
        SameTailSameSlice(bytes, other, e, start, start + size);
        SameTailSameSlice(bytes, other, e, start + size, start + size + 32);
      }
    }
  }

  /** A scan looks at no byte before its start. */
  lemma {:induction false} SameTailSameScan(blake: HashFn, bytes: seq<byte>, other: seq<byte>, e: nat, cursor: nat)
    requires e <= cursor <= |bytes| == |other| && bytes[e..] == other[e..]
    ensures Scan(blake, bytes, cursor) == Scan(blake, other, cursor) && Scanned(blake, bytes, cursor) == Scanned(blake, other, cursor)
    decreases |bytes| - cursor
  {
    hide IntactAt, SizeAt, Scan, Scanned;
    ScanStops(blake, bytes, cursor);
    ScanStops(blake, other, cursor);
    SameTailSameFrame(blake, bytes, other, e, cursor);
    if IntactAt(blake, bytes, cursor) {
      ScanSteps(blake, bytes, cursor);
      ScanSteps(blake, other, cursor);
      SameTailSameScan(blake, bytes, other, e, NextFrame(bytes, cursor));
    }
  }

  lemma WrittenParts(bytes: seq<byte>, at: nat, frame: seq<byte>)
    requires at + |frame| <= |bytes|
    ensures var after := Written(bytes, at, frame);
      after[..at] == bytes[..at] && HasAt(after, at, frame) && after[at + |frame|..] == bytes[at + |frame|..]
  {}

  /**
   On memory of any content: after a recovery and any run of appends of non-empty payloads, the next recovery finds
   the recovered payloads, the new ones that fitted, and whatever intact frames the old bytes after the cursor
   happen to form; it ends at the session's cursor if and only if they form none.
   */
  lemma AppendAfterRecovery(blake: HashFn, bytes: seq<byte>, ps: seq<Payload>)
    requires NoneEmpty(ps) && |bytes| < 0x1_0000_0000
    ensures var r := Recovered(blake, bytes); var m := AppendAll(blake, r, ps);
      && r.cursor <= m.cursor <= |bytes| == |m.bytes|
      && Scanned(blake, m.bytes, 0) == Scanned(blake, bytes, 0) + Fitting(ps, |bytes| - r.cursor) + Scanned(blake, bytes, m.cursor)
      && Scan(blake, m.bytes, 0) == Scan(blake, bytes, m.cursor)
      && (Scan(blake, m.bytes, 0) == m.cursor <==> !IntactAt(blake, bytes, m.cursor))
  {
    hide Frame, Frames, Scan, Scanned, HasAt, IntactAt, AppendAll, Fitting, Written, NoneEmpty;
    var r := Recovered(blake, bytes);
    var m, fs := AppendAll(blake, r, ps), Fitting(ps, |bytes| - r.cursor);
    AppendAllWrites(blake, r, ps);
    WrittenParts(bytes, r.cursor, Frames(blake, fs));
    SamePrefixSameScan(blake, bytes, m.bytes, 0);
    ScanPasses(blake, m.bytes, r.cursor, fs);
    SameTailSameScan(blake, bytes, m.bytes, m.cursor, m.cursor);
    ScanStops(blake, bytes, m.cursor);
    assert Scanned(blake, bytes, 0) + (fs + Scanned(blake, bytes, m.cursor)) == Scanned(blake, bytes, 0) + fs + Scanned(blake, bytes, m.cursor);
  }

  /** Overwriting a torn first frame by one of the same size brings the frame behind it back. */
  lemma StaleFrameRevived(blake: HashFn, bytes: seq<byte>, p: Payload, stale: Payload)
    requires p != [] && stale != [] && |bytes| < 0x1_0000_0000 && Scan(blake, bytes, 0) == 0
    requires FrameSize(p) <= |bytes| && HasAt(bytes, FrameSize(p), Frame(blake, stale))
    ensures [p, stale] <= Scanned(blake, Appended(blake, Recovered(blake, bytes), p).bytes, 0)
  {
    hide Frame, Scan, Scanned, HasAt, IntactAt, Written;
    assert [p][1..] == [];
    assert AppendAll(blake, Recovered(blake, bytes), [p]) == Appended(blake, Recovered(blake, bytes), p);
    assert Fitting([p], |bytes|) == [p];
    AppendAfterRecovery(blake, bytes, [p]);
    FrameAt(blake, bytes, FrameSize(p), stale);
    ScanStops(blake, bytes, 0);
    var rest := Scanned(blake, bytes, FrameSize(p) + FrameSize(stale));
    assert [] + [p] + ([stale] + rest) == [p, stale] + rest;
  }
}
